/** Facts about the approach queues: the filter a green phase applies,
    order preservation, and duplicate-freedom. */
module Queues {
  import opened Model

  predicate NoDup(q: seq<CarId>)
  {
    forall i, j :: 0 <= i < j < |q| ==> q[i] != q[j]
  }

  predicate IdsBelow(q: seq<CarId>, n: nat)
  {
    forall id :: id in q ==> id < n
  }

  /** `r` is obtained from `q` by deleting elements (the usual definition). */
  predicate Subsequence(r: seq<CarId>, q: seq<CarId>)
    decreases |q|
  {
    r == [] ||
    (q != [] &&
     ((r[0] == q[0] && Subsequence(r[1..], q[1..])) || Subsequence(r, q[1..])))
  }

  /** The queue after a green phase: the cars of `q` still short of the stop
      line, in their former order. */
  function Waiting(q: seq<CarId>, cars: seq<Car>): (r: seq<CarId>)
    requires IdsBelow(q, |cars|)
    ensures Subsequence(r, q)
    ensures forall id :: id in q ==>
              multiset(r)[id] == if cars[id].distToCross > 0 then multiset(q)[id] else 0
    ensures forall id :: id in r ==> id in q && cars[id].distToCross > 0
  {
    if q == [] then []
    else
      assert q == [q[0]] + q[1..];
      assert q[0] in q;
      assert forall id :: id in q[1..] ==> id in q;
      var rest := Waiting(q[1..], cars);
      if cars[q[0]].distToCross > 0 then [q[0]] + rest else rest
  }

  /** A queue in which no car occurs twice has no repeated index. */
  lemma {:induction false} NoDupOfCounts(q: seq<CarId>)
    requires forall id :: multiset(q)[id] <= 1
    ensures NoDup(q)
  {
    forall i, j | 0 <= i < j < |q|
      ensures q[i] != q[j]
    {
      assert q == q[..j] + q[j..];
      assert multiset(q)[q[j]] == multiset(q[..j])[q[j]] + multiset(q[j..])[q[j]];
      assert q[i] in q[..j] && q[j] in q[j..];
    }
  }
}
