/** Optional values, used where the program either shows a piece of text or omits it. */
module Wrappers {

  datatype Option<+T> = None | Some(value: T)
}
