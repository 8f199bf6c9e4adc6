/** Option and Result datatypes shared by the whole model. */
module Wrappers {

  /** A value that may be absent (Python's `None` or a value). */
  datatype Option<+T> = None | Some(value: T)

  /** Either a computed value or the error the Python code would raise. */
  datatype Result<+R, +E> = Success(value: R) | Failure(error: E)

  /** Two steps run one after the other: the first failure ends the run, otherwise the
      outputs are appended. */
  function Then<T, E>(a: Result<seq<T>, E>, b: Result<seq<T>, E>): (r: Result<seq<T>, E>)
    ensures r.Failure? <==> a.Failure? || b.Failure?
    ensures a.Failure? ==> r == a
    ensures a.Success? && b.Failure? ==> r == b
    ensures r.Success? ==> r.value == a.value + b.value
  {
    if a.Failure? then a else if b.Failure? then b else Success(a.value + b.value)
  }

  /** Running three steps does not depend on how they are grouped. */
  lemma ThenAssociative<T, E>(a: Result<seq<T>, E>, b: Result<seq<T>, E>, c: Result<seq<T>, E>)
    ensures Then(a, Then(b, c)) == Then(Then(a, b), c)
  {
    if a.Success? && b.Success? && c.Success? {
      assert a.value + (b.value + c.value) == (a.value + b.value) + c.value;
    }
  }
}
