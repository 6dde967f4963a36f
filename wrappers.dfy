/** Optional values, used for the outcomes that the source expresses with
    `Option` (a lookup that may miss) or with a panic (an absent value). */
module Wrappers {
  datatype Option<+T> = None | Some(value: T)
}
