/** Optional values: what the rule learner keeps in fields and results annotated `T | None`. */
module Wrappers {
  datatype Option<+T> = None | Some(value: T)
}
