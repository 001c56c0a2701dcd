/** Optional values: a missing widget id, a missing self-declared jump key,
    a widget that is not a jump target. */
module Wrappers {

  datatype Option<+T> = None | Some(value: T)
}
