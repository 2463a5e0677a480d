/** Optional values: a Java reference that may be null, or a result that is
    missing because the Java code threw. */
module Wrappers {

  datatype Option<+T> = None | Some(value: T)
}
