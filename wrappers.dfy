/** Optional values, for the fields of a Telegram update that may be absent. */
module Wrappers {
  datatype Option<+T> = None | Some(value: T)
}
