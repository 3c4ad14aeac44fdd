/** Removal from vectors whose order does not matter. */
module Vectors {
  /** Overwrites the element at `i` with the last one and drops that. */
  function SwapPop<T>(list: seq<T>, i: nat): (r: seq<T>)
    requires i < |list|
    ensures |r| == |list| - 1 && multiset(r) == multiset(list) - multiset{list[i]}
  {
    var last := |list| - 1;
    assert list == list[..last] + [list[last]];
    assert list[i := list[last]] == list[i := list[last]][..last] + [list[last]];
    list[i := list[last]][..last]
  }

  lemma SwapPopIsShorter<T>(list: seq<T>, i: nat)
    requires i < |list|
    ensures |SwapPop(list, i)| == |list| - 1
  {
  }

  ghost predicate Distinct<T>(list: seq<T>) {
    forall i, j :: 0 <= i < j < |list| ==> list[i] != list[j]
  }

  /** Just that element is gone, and no other one appears twice. */
  lemma {:induction false} SwapPopMembers<T>(list: seq<T>, i: nat)
    requires i < |list| && Distinct(list)
    ensures var r := SwapPop(list, i);
            Distinct(r) && forall x :: x in r <==> x in list && x != list[i]
  {
    var r, last := SwapPop(list, i), |list| - 1;
    forall x | x in list && x != list[i] ensures x in r {
      var j :| 0 <= j < |list| && list[j] == x;
      assert r[if j == last then i else j] == x;
    }
  }

  /** Swapping with the last element and popping that. */
  lemma {:induction false} SwapThenPop<T>(list: seq<T>, i: nat)
    requires i < |list|
    ensures var last := |list| - 1; list[i := list[last]][last := list[i]][..last] == SwapPop(list, i)
  {
  }
}
