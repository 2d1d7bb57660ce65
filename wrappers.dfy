/** Optional values: a decoded file that may be missing, an answer to a prompt
    that may have been cancelled, a download that may not happen. */
module Wrappers {

  datatype Option<+T> = None | Some(value: T)
}
