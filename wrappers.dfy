/** Failure-compatible wrappers: Option for Python's "returns None on error", Result for errors that carry a reason. */
module Wrappers {

  datatype Option<+T> = None | Some(value: T) {
    predicate IsFailure() { None? }

    function PropagateFailure<U>(): Option<U>
      requires None?
    {
      None
    }

    function Extract(): T
      requires Some?
    {
      value
    }
  }

  datatype Result<+T, +E> = Ok(value: T) | Err(error: E) {
    predicate IsFailure() { Err? }

    function PropagateFailure<U>(): Result<U, E>
      requires Err?
    {
      Err(error)
    }

    function Extract(): T
      requires Ok?
    {
      value
    }
  }

  /** The values of a sequence of results in order, or the error of the first that failed. */
  function Collect<T, E>(rs: seq<Result<T, E>>): Result<seq<T>, E>
    decreases |rs|
  {
    if rs == [] then Ok([])
    else
      var init :- Collect(rs[..|rs| - 1]);
      var x :- rs[|rs| - 1];
      Ok(init + [x])
  }

  /** One more result: its value appended, or its error. */
  lemma CollectStep<T, E>(rs: seq<Result<T, E>>, i: nat)
    requires i < |rs| && Collect(rs[..i]).Ok?
    ensures rs[i].Err? ==> Collect(rs[..i + 1]) == Err(rs[i].error)
    ensures rs[i].Ok? ==> Collect(rs[..i + 1]) == Ok(Collect(rs[..i]).value + [rs[i].value])
  {
    assert rs[..i + 1][..i] == rs[..i];
  }

  /** A failed prefix decides the whole. */
  lemma {:induction false} CollectFailsEarly<T, E>(rs: seq<Result<T, E>>, k: nat)
    requires k <= |rs| && Collect(rs[..k]).Err?
    ensures Collect(rs) == Collect(rs[..k])
    decreases |rs|
  {
    if k < |rs| {
      var last := |rs| - 1;
      assert rs[..last][..k] == rs[..k];
      CollectFailsEarly(rs[..last], k);
    } else {
      assert rs[..k] == rs;
    }
  }

  /** When every result succeeds, the values in order. */
  lemma {:induction false} CollectAllOk<T, E>(rs: seq<Result<T, E>>)
    requires forall j | 0 <= j < |rs| :: rs[j].Ok?
    ensures Collect(rs).Ok? && |Collect(rs).value| == |rs|
    ensures forall j | 0 <= j < |rs| :: Collect(rs).value[j] == rs[j].value
    decreases |rs|
  {
    if rs != [] {
      var last := |rs| - 1;
      assert forall j | 0 <= j < last :: rs[..last][j] == rs[j];
      CollectAllOk(rs[..last]);
    }
  }

  /** The first failure is the answer. */
  lemma CollectFirstError<T, E>(rs: seq<Result<T, E>>, k: nat)
    requires k < |rs| && rs[k].Err?
    requires forall j | 0 <= j < k :: rs[j].Ok?
    ensures Collect(rs) == Err(rs[k].error)
  {
    assert forall j | 0 <= j < k :: rs[..k][j] == rs[j];
    CollectAllOk(rs[..k]);
    CollectStep(rs, k);
    CollectFailsEarly(rs, k + 1);
  }
}
