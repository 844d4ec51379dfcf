/** The optional value used wherever the Java code returns null or an index may be absent. */
module Wrappers {

  datatype Option<+T> = None | Some(value: T)
}
