/** Small failure-carrying datatypes shared by the model. */
module Wrappers {

  /** Python's `None` or a value. */
  datatype Option<+T> = None | Some(value: T)

  /** The result of an operation that evaluates Python `assert` statements:
      either the value, or the AssertionError the source would raise. */
  datatype Checked<+T> = Ok(value: T) | AssertionFailure

  /** The outcome of a run of steps that may each fail an assertion, as a loop that stops
      at the first failure leaves it: the failure if any step failed, otherwise the values
      of the steps in order. */
  function Collect<T>(rs: seq<Checked<T>>): (r: Checked<seq<T>>)
    ensures r.Ok? ==> |r.value| == |rs| && forall k :: 0 <= k < |rs| ==> rs[k] == Ok(r.value[k])
    ensures r.AssertionFailure? <==> exists k :: 0 <= k < |rs| && rs[k].AssertionFailure?
  {
    if |rs| == 0 then Ok([])
    else
      var n := |rs| - 1;
      var init := Collect(rs[..n]);
      assert forall k :: 0 <= k < n ==> rs[..n][k] == rs[k];
      if init.AssertionFailure? || rs[n].AssertionFailure? then AssertionFailure
      else Ok(init.value + [rs[n].value])
  }

  /** One more step of such a run. */
  lemma CollectSnoc<T>(rs: seq<Checked<T>>, i: int)
    requires 0 <= i < |rs|
    ensures Collect(rs[..i + 1]) ==
      if Collect(rs[..i]).Ok? && rs[i].Ok? then Ok(Collect(rs[..i]).value + [rs[i].value]) else AssertionFailure
  {
    assert rs[..i + 1][..i] == rs[..i];
  }
}
