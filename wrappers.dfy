/** A value that may be absent: the model's stand-in for a Java reference that may be null. */
module Wrappers {

  datatype Option<+T> = None | Some(value: T)

  /** What a Java method does: return a value, or throw the named exception. */
  datatype Outcome<+T> = Returned(value: T) | Thrown(exception: string)

}
