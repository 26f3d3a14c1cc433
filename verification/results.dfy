/** Failure-compatible result types shared by the model. */
module Results {

  /** An optional value. */
  datatype Option<+T> = None | Some(value: T)

  /** The outcome of a computation that either returns a value or ends in a
      Go runtime panic (the converter never returns an error value, but a
      panic inside a getter unwinds through it). */
  datatype Outcome<+T> = Ok(value: T) | Panic(reason: string) {

    predicate IsFailure() {
      Panic?
    }

    function PropagateFailure<U>(): Outcome<U>
      requires Panic?
    {
      Panic(reason)
    }

    function Extract(): T
      requires Ok?
    {
      value
    }
  }

  /** A property holds of every element exactly when it holds of the first
      and of every element of the rest. */
  lemma AllTail<T>(xs: seq<T>, p: T -> bool)
    requires |xs| > 0
    ensures (forall i :: 0 <= i < |xs| ==> p(xs[i]))
      <==> p(xs[0]) && (forall i :: 0 <= i < |xs[1..]| ==> p(xs[1..][i]))
  {
    if p(xs[0]) && (forall i :: 0 <= i < |xs[1..]| ==> p(xs[1..][i])) {
      forall i | 0 <= i < |xs| ensures p(xs[i]) {
        if i > 0 {
          assert xs[i] == xs[1..][i - 1];
        }
      }
    }
  }
}
