/** Batches: a computation on one stimulus applied to every element of a
    sequence of stimuli, independently of the others. */
module Batch {
  import opened Wrappers

  /** `f` applied to every element. The whole map fails, with the error of
      the first failing element, as soon as one element fails; otherwise its
      k-th result is `f` of the k-th element. */
  function MapAll<A, B, E>(xs: seq<A>, f: A -> Result<B, E>): (r: Result<seq<B>, E>)
    ensures r.Success? ==> |r.value| == |xs| && forall k :: 0 <= k < |xs| ==> f(xs[k]) == Success(r.value[k])
    ensures r.Failure? ==>
      exists k :: 0 <= k < |xs| && f(xs[k]) == Failure(r.error) && forall k' :: 0 <= k' < k ==> f(xs[k']).Success?
    decreases |xs|
  {
    if |xs| == 0 then Success([])
    else
      var head := f(xs[0]);
      if head.Failure? then Failure(head.error)
      else
        var tail := MapAll(xs[1..], f);
        if tail.Failure? then
          ghost var k :| 0 <= k < |xs[1..]| && f(xs[1..][k]) == Failure(tail.error)
            && forall k' :: 0 <= k' < k ==> f(xs[1..][k']).Success?;
          assert f(xs[k + 1]) == Failure(tail.error);
          assert forall k' :: 0 <= k' < k + 1 ==> f(xs[k']).Success? by {
            forall k' | 0 <= k' < k + 1 ensures f(xs[k']).Success? {
              if k' > 0 { assert xs[k'] == xs[1..][k' - 1]; }
            }
          }
          Failure(tail.error)
        else
          var all := [head.value] + tail.value;
          assert forall k :: 1 <= k < |xs| ==> xs[k] == xs[1..][k - 1] && all[k] == tail.value[k - 1];
          Success(all)
  }
}
