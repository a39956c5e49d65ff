/**
 Go run-time behaviour the topology and simulator code relies on: an index
 operation on a slice either yields an element or panics, and a panic ends the
 whole computation. A panic is modelled as the `Abort` outcome of `Result`.
 */
module GoRuntime {

  /** A nil-able reference: `None` is Go's nil. */
  datatype Option<+T> = None | Some(value: T)

  /** The run-time error Go raises for `xs[i]` with `i >= len(xs)`. */
  datatype Panic = IndexOutOfRange(index: nat, length: nat)

  /** Either the value a Go expression computes, or the panic it raises.
      Failure-compatible, so `:-` propagates a panic the way Go unwinds. */
  datatype Result<+T> = Ok(value: T) | Abort(panic: Panic) {

    predicate IsFailure() {
      Abort?
    }

    function PropagateFailure<U>(): Result<U>
      requires Abort?
    {
      Abort(panic)
    }

    function Extract(): T
      requires Ok?
    {
      value
    }
  }

  /** Go's bounds-checked read `xs[i]`. */
  function At<T>(xs: seq<T>, i: nat): Result<T> {
    if i < |xs| then Ok(xs[i]) else Abort(IndexOutOfRange(i, |xs|))
  }

  /** Go's bounds-checked write `xs[i] = v`; the slice keeps its length. */
  function Store<T>(xs: seq<T>, i: nat, v: T): Result<seq<T>> {
    if i < |xs| then Ok(xs[i := v]) else Abort(IndexOutOfRange(i, |xs|))
  }
}
