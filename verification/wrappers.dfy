/** Small failure-carrying datatypes shared by the model. */
module Wrappers {

  /** An optional value: `None` stands for an absent or malformed result. */
  datatype Option<+T> = None | Some(value: T)

  /** Puts `prefix` in front of the sequence an optional result carries, keeping a failure a failure. */
  function Prepend<T>(prefix: seq<T>, rest: Option<seq<T>>): (r: Option<seq<T>>)
    ensures r.Some? <==> rest.Some?
    ensures r.Some? ==> r.value == prefix + rest.value
  {
    match rest
    case None => None
    case Some(tail) => Some(prefix + tail)
  }

  /** The outcome of a Java call that either returns a value or throws a `NullPointerException`. */
  datatype Thrown<+T> = Returns(value: T) | ThrowsNullPointer
}
