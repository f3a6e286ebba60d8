/** Optional values, used for "not found" searches and for the at-most-one
    violation a sniff run can report. */
module Wrappers {

  datatype Option<+T> = None | Some(value: T)
}
