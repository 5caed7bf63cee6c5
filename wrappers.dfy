/**
 * Option and Result values. The adapters report every rejected input by
 * throwing an exception with a message; the model returns `Err(message)`.
 */
module Wrappers {
  datatype Option<T> = None | Some(value: T)

  datatype Result<T> = Ok(value: T) | Err(message: string)

  /** The outcome of a step that either completes or throws. */
  datatype Outcome = Pass | Fail(message: string)

  /** A successful result is determined by the three parts of its value. */
  lemma OkTriple<A, B, C>(r: Result<(A, B, C)>, a: A, b: B, c: C)
    requires r.Ok? && r.value.0 == a && r.value.1 == b && r.value.2 == c
    ensures r == Ok((a, b, c))
  {
  }

  /** Every value present, or none. */
  function AllRead<T>(rs: seq<Option<T>>): (r: Option<seq<T>>)
    ensures r.Some? <==> forall k | 0 <= k < |rs| :: rs[k].Some?
    ensures r.Some? ==> |r.value| == |rs| && forall k | 0 <= k < |rs| :: rs[k] == Some(r.value[k])
  {
    if forall k | 0 <= k < |rs| :: rs[k].Some? then
      Some(seq(|rs|, k requires 0 <= k < |rs| && rs[k].Some? => rs[k].value))
    else None
  }
}
