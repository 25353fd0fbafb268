/** The Option type used for parse results and lookups. */
module Wrappers {

  /** A value that may be absent: the model's stand-in for Java's null and for an
      exception caught and turned into a flag. */
  datatype Option<+T> = None | Some(value: T)
}
