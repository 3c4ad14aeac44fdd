/**
 The two passes over the list of large objects. Both remove a destroyed object by swapping it
 with the last one, and then look at the same index again.
 */
module LargeObjects {
  import opened References
  import opened Objects
  import opened Collection
  import opened Vectors

  datatype Sweep<N> = Sweep(heap: Heap<N>, survivors: seq<N>)

  ghost predicate Listed<N>(h: Heap<N>, list: seq<N>) {
    Distinct(list) && forall k :: 0 <= k < |list| ==> list[k] in h.refs
  }

  /** What a pass does after the object at `i` was destroyed. */
  lemma {:induction false} ListedAfter<N>(h: Heap<N>, h': Heap<N>, list: seq<N>, i: nat)
    requires Listed(h, list) && i < |list| && h'.refs.Keys == h.refs.Keys
    ensures Listed(h', SwapPop(list, i))
  {
    SwapPopMembers(list, i);
    var r := SwapPop(list, i);
    assert forall k :: 0 <= k < |r| ==> r[k] in r;
  }

  // ---------------------------------------------------------------- the fast pass

  /** `CollectLargeObjectsFast` from index `i` on: it destroys what is flagged when it gets there. */
  function SweepFast<N(==)>(h: Heap<N>, list: seq<N>, i: nat): (r: Sweep<N>)
    requires Shaped(h) && Balanced(h) && Listed(h, list)
    ensures Shaped(r.heap) && Balanced(r.heap) && r.heap.refs.Keys == h.refs.Keys
    decreases |list| - i
  {
    if i >= |list| then Sweep(h, list)
    else if list[i] in h.flagged then
      ListedAfter(h, Destroy(h, list[i]), list, i);
      SweepFast(Destroy(h, list[i]), SwapPop(list, i), i)
    else SweepFast(h, list, i + 1)
  }

  /** What of the list an index pass has behind it and what before it. */
  ghost predicate From<N>(list: seq<N>, i: nat, n: N) {
    exists k :: i <= k < |list| && list[k] == n
  }

  lemma {:induction false} FromAfter<N>(list: seq<N>, i: nat, n: N)
    requires Distinct(list) && i < |list|
    ensures From(SwapPop(list, i), i, n) <==> From(list, i, n) && n != list[i]
    ensures SwapPop(list, i)[..i] == list[..i]
  {
    var r, last := SwapPop(list, i), |list| - 1;
    if From(list, i, n) && n != list[i] {
      var k :| i <= k < |list| && list[k] == n;
      assert r[if k == last then i else k] == n;
    }
    if From(r, i, n) {
      var k :| i <= k < |r| && r[k] == n;
      assert list[if k == i then last else k] == n;
    }
  }

  lemma {:induction false} FromNext<N>(list: seq<N>, i: nat, n: N)
    requires Distinct(list) && i < |list|
    ensures From(list, i, n) <==> n == list[i] || From(list, i + 1, n)
    ensures !From(list, i + 1, list[i])
  {
  }

  lemma {:induction false} FromIsListed<N>(h: Heap<N>, list: seq<N>, i: nat)
    requires Listed(h, list)
    ensures forall n :: From(list, i, n) ==> n in h.refs
  {
  }

  lemma {:induction false} FromEnd<N>(list: seq<N>)
    ensures forall n :: !From(list, |list|, n)
  {
  }

  /**
   The fast pass destroys every object that was flagged when it started, and nothing reachable,
   whatever cycles there are. It may leave objects that it flagged itself.
   */
  lemma {:induction false} SweepFastIsSafe<N>(h: Heap<N>, list: seq<N>, i: nat)
    requires Good(h) && Listed(h, list) && i <= |list|
    ensures var r := SweepFast(h, list, i);
            && Good(r.heap) && SameLive(h, r.heap) && (NoLiveCycle(GraphOf(h)) ==> NoLiveCycle(GraphOf(r.heap)))
            && h.flagged <= r.heap.flagged && h.destroyed <= r.heap.destroyed
            && (forall n :: n in r.heap.destroyed - h.destroyed ==> From(list, i, n) && !Live(h, n))
            && (forall n :: From(list, i, n) && n in h.flagged ==> n in r.heap.destroyed)
    decreases |list| - i
  {
    if i < |list| {
      var n := list[i];
      if n in h.flagged {
        DestroyingGarbage(h, n);
        ListedAfter(h, Destroy(h, n), list, i);
        SweepFastIsSafe(Destroy(h, n), SwapPop(list, i), i);
        forall m ensures From(SwapPop(list, i), i, m) <==> From(list, i, m) && m != n {
          FromAfter(list, i, m);
        }
        FromNext(list, i, n);
      } else {
        SweepFastIsSafe(h, list, i + 1);
        forall m ensures From(list, i, m) <==> m == n || From(list, i + 1, m) {
          FromNext(list, i, m);
        }
      }
    }
  }

  // ---------------------------------------------------------------- the slow pass

  /** `CollectLargeObjectsSlow` from index `i` on: it inspects every object as a pass over a page does. */
  function SweepSlow<N(==)>(h: Heap<N>, list: seq<N>, i: nat, locks: nat -> bool, clock: nat): (r: Pass<N>)
    requires Shaped(h) && Balanced(h) && Listed(h, list)
    ensures Shaped(r.heap) && Balanced(r.heap) && r.heap.refs.Keys == h.refs.Keys
    decreases |list| - i
  {
    if i >= |list| then Pass(h, list, clock)
    else
      var first := Inspect(h, list[i], locks, clock);
      if first.dead then
        ListedAfter(h, first.heap, list, i);
        SweepSlow(first.heap, SwapPop(list, i), i, locks, first.clock)
      else SweepSlow(first.heap, list, i + 1, locks, first.clock)
  }

  /** With no live cycle the slow pass destroys only unreachable objects, whichever locks are refused. */
  lemma {:induction false} SweepSlowIsSafe<N>(h: Heap<N>, list: seq<N>, i: nat, locks: nat -> bool, clock: nat)
    requires Collectable(h) && Listed(h, list) && i <= |list|
    ensures var r := SweepSlow(h, list, i, locks, clock);
            && Collectable(r.heap) && SameLive(h, r.heap) && h.destroyed <= r.heap.destroyed
            && forall n :: n in r.heap.destroyed - h.destroyed ==> From(list, i, n) && !Live(h, n)
    decreases |list| - i
  {
    hide Shaped, Balanced, FlagsSound, NoLiveCycle, Inspect, Live, From, Distinct, SwapPop;
    FromIsListed(h, list, i);
    if i < |list| {
      InspectIsExact(h, list[i], locks, clock);
      var first, n := Inspect(h, list[i], locks, clock), list[i];
      var r := SweepSlow(h, list, i, locks, clock);
      if first.dead {
        ListedAfter(h, first.heap, list, i);
        SweepSlowIsSafe(first.heap, SwapPop(list, i), i, locks, first.clock);
      } else {
        SweepSlowIsSafe(first.heap, list, i + 1, locks, first.clock);
      }
      forall m | m in r.heap.destroyed - h.destroyed ensures From(list, i, m) && !Live(h, m) {
        FromNext(list, i, m);
        FromAfter(list, i, m);
        if m != n {
          assert m in r.heap.destroyed - first.heap.destroyed;
          assert if first.dead then From(SwapPop(list, i), i, m) else From(list, i + 1, m);
          assert m in h.refs;
        }
      }
    }
  }

  /** If no lock is refused either, just the reachable objects stay on the list, and the others are destroyed. */
  lemma {:induction false} SweepSlowIsComplete<N>(h: Heap<N>, list: seq<N>, i: nat, locks: nat -> bool, clock: nat)
    requires Collectable(h) && Listed(h, list) && i <= |list| && forall t :: locks(t)
    ensures var r := SweepSlow(h, list, i, locks, clock);
            && h.destroyed <= r.heap.destroyed
            && (forall n :: n in r.survivors <==> n in list[..i] || (From(list, i, n) && Live(h, n)))
            && (forall n :: From(list, i, n) && !Live(h, n) ==> n in r.heap.destroyed)
    decreases |list| - i
  {
    hide Shaped, Balanced, FlagsSound, NoLiveCycle, Inspect, Live, From, Distinct, SwapPop;
    FromIsListed(h, list, i);
    if i < |list| {
      var n := list[i];
      InspectIsExact(h, n, locks, clock);
      var first := Inspect(h, n, locks, clock);
      if first.dead {
        ListedAfter(h, first.heap, list, i);
        SweepSlowIsComplete(first.heap, SwapPop(list, i), i, locks, first.clock);
        forall m ensures From(SwapPop(list, i), i, m) <==> From(list, i, m) && m != n {
          FromAfter(list, i, m);
        }
        FromAfter(list, i, n);
      } else {
        SweepSlowIsComplete(first.heap, list, i + 1, locks, first.clock);
        forall m ensures From(list, i, m) <==> m == n || From(list, i + 1, m) {
          FromNext(list, i, m);
        }
        assert list[..i + 1] == list[..i] + [n];
      }
    } else {
      FromEnd(list);
      assert list[..i] == list;
    }
  }

  /** What the pass has behind it stays at the front of the list. */
  lemma {:induction false} SweepSlowKeepsFront<N>(h: Heap<N>, list: seq<N>, i: nat, locks: nat -> bool, clock: nat)
    requires Shaped(h) && Balanced(h) && Listed(h, list) && i <= |list|
    ensures var r := SweepSlow(h, list, i, locks, clock); i <= |r.survivors| && r.survivors[..i] == list[..i]
    decreases |list| - i
  {
    hide Shaped, Balanced, Inspect, Distinct, SwapPop;
    if i < |list| {
      var first := Inspect(h, list[i], locks, clock);
      if first.dead {
        ListedAfter(h, first.heap, list, i);
        FromAfter(list, i, list[i]);
        SwapPopIsShorter(list, i);
        SweepSlowKeepsFront(first.heap, SwapPop(list, i), i, locks, first.clock);
      } else {
        SweepSlowKeepsFront(first.heap, list, i + 1, locks, first.clock);
        assert SweepSlow(h, list, i, locks, clock).survivors[..i + 1][..i] == list[..i + 1][..i];
      }
    }
  }

  /** An object of which a lock is refused when its turn comes stays where it is on the list. */
  lemma RefusedLargeObjectStays<N>(h: Heap<N>, list: seq<N>, i: nat, locks: nat -> bool, clock: nat)
    requires Shaped(h) && Balanced(h) && Listed(h, list) && i < |list| && (!locks(clock) || !locks(clock + 1))
    ensures var r := SweepSlow(h, list, i, locks, clock); i < |r.survivors| && r.survivors[i] == list[i]
  {
    hide Balanced, WellFormed, Inspect, Distinct;
    InspectHeedsLocks(h, list[i], locks, clock);
    SweepSlowKeepsFront(h, list, i + 1, locks, Inspect(h, list[i], locks, clock).clock);
    assert SweepSlow(h, list, i, locks, clock).survivors[..i + 1][i] == list[..i + 1][i];
  }

  /** If every lock is refused the slow pass changes nothing. */
  lemma {:induction false} RefusedSweepChangesNothing<N>(h: Heap<N>, list: seq<N>, i: nat, locks: nat -> bool, clock: nat)
    requires Shaped(h) && Balanced(h) && Listed(h, list) && forall t :: !locks(t)
    ensures var r := SweepSlow(h, list, i, locks, clock); r.heap == h && r.survivors == list
    decreases |list| - i
  {
    hide Balanced, WellFormed, Inspect, Distinct;
    if i < |list| {
      InspectHeedsLocks(h, list[i], locks, clock);
      RefusedSweepChangesNothing(h, list, i + 1, locks, Inspect(h, list[i], locks, clock).clock);
    }
  }

  lemma {:induction false} SweepFastFewer<N>(h: Heap<N>, list: seq<N>, i: nat)
    requires Shaped(h) && Balanced(h) && Listed(h, list)
    ensures FewerTargets(h, SweepFast(h, list, i).heap)
    decreases |list| - i
  {
    hide Shaped, Balanced, Distinct, Destroy, SwapPop;
    if i < |list| {
      if list[i] in h.flagged {
        DestroyKeepsOthers(h, list[i]);
        ListedAfter(h, Destroy(h, list[i]), list, i);
        SweepFastFewer(Destroy(h, list[i]), SwapPop(list, i), i);
        FewerStill(h, Destroy(h, list[i]), SweepFast(h, list, i).heap);
      } else {
        SweepFastFewer(h, list, i + 1);
      }
    }
  }

  lemma {:induction false} SweepSlowFewer<N>(h: Heap<N>, list: seq<N>, i: nat, locks: nat -> bool, clock: nat)
    requires Shaped(h) && Balanced(h) && Listed(h, list)
    ensures FewerTargets(h, SweepSlow(h, list, i, locks, clock).heap)
    decreases |list| - i
  {
    hide Shaped, Balanced, Distinct, Inspect, SwapPop;
    if i < |list| {
      var first := Inspect(h, list[i], locks, clock);
      InspectKeepsOthers(h, list[i], locks, clock);
      if first.dead {
        ListedAfter(h, first.heap, list, i);
        SweepSlowFewer(first.heap, SwapPop(list, i), i, locks, first.clock);
      } else {
        SweepSlowFewer(first.heap, list, i + 1, locks, first.clock);
      }
      FewerStill(h, first.heap, SweepSlow(h, list, i, locks, clock).heap);
    }
  }

  lemma SweepFastIsHarmless<N>(h: Heap<N>, list: seq<N>)
    requires Shaped(h) && Balanced(h) && Listed(h, list)
    ensures Harmless(h, SweepFast(h, list, 0).heap)
  {
    hide NoLiveCycle, Live, SweepFast, Listed;
    if Collectable(h) {
      SweepFastIsSafe(h, list, 0);
      SweepFastFewer(h, list, 0);
      GarbageHoldsLess(h, SweepFast(h, list, 0).heap);
    }
  }

  /** What `Allocate` does to the heap for a large object. */
  lemma SweepThenRegister<N>(h: Heap<N>, list: seq<N>, n: N, fieldCount: nat)
    requires Shaped(h) && Balanced(h) && Listed(h, list) && n !in h.refs
    ensures var h' := Register(SweepFast(h, list, 0).heap, n, fieldCount); Harmless(h, h') && FewerTargets(h, h')
  {
    hide Shaped, Balanced, Listed, SweepFast, Register, Harmless, FewerTargets;
    var swept := SweepFast(h, list, 0).heap;
    SweepFastIsHarmless(h, list);
    SweepFastFewer(h, list, 0);
    RegisterIsHarmless(swept, n, fieldCount);
    NewcomerHasNoTargets(swept, n, fieldCount);
    HarmlessSteps(h, swept, Register(swept, n, fieldCount));
    FewerStill(h, swept, Register(swept, n, fieldCount));
  }

  lemma SweepSlowIsHarmless<N>(h: Heap<N>, list: seq<N>, locks: nat -> bool, clock: nat)
    requires Shaped(h) && Balanced(h) && Listed(h, list)
    ensures Harmless(h, SweepSlow(h, list, 0, locks, clock).heap)
  {
    hide NoLiveCycle, Live, SweepSlow, Listed;
    if Collectable(h) {
      SweepSlowIsSafe(h, list, 0, locks, clock);
      SweepSlowFewer(h, list, 0, locks, clock);
      GarbageHoldsLess(h, SweepSlow(h, list, 0, locks, clock).heap);
    }
  }

  lemma {:induction false} SweepFastShrinks<N>(h: Heap<N>, list: seq<N>, i: nat)
    requires Shaped(h) && Balanced(h) && Listed(h, list)
    ensures forall n :: n in SweepFast(h, list, i).survivors ==> n in list
    decreases |list| - i
  {
    hide Shaped, Balanced, Distinct, Destroy, SwapPop;
    if i < |list| {
      if list[i] in h.flagged {
        SwapPopMembers(list, i);
        ListedAfter(h, Destroy(h, list[i]), list, i);
        SweepFastShrinks(Destroy(h, list[i]), SwapPop(list, i), i);
      } else {
        SweepFastShrinks(h, list, i + 1);
      }
    }
  }

  lemma {:induction false} SweepSlowShrinks<N>(h: Heap<N>, list: seq<N>, i: nat, locks: nat -> bool, clock: nat)
    requires Shaped(h) && Balanced(h) && Listed(h, list)
    ensures forall n :: n in SweepSlow(h, list, i, locks, clock).survivors ==> n in list
    decreases |list| - i
  {
    hide Shaped, Balanced, Distinct, Inspect, SwapPop;
    if i < |list| {
      var first := Inspect(h, list[i], locks, clock);
      if first.dead {
        SwapPopMembers(list, i);
        ListedAfter(h, first.heap, list, i);
        SweepSlowShrinks(first.heap, SwapPop(list, i), i, locks, first.clock);
      } else {
        SweepSlowShrinks(first.heap, list, i + 1, locks, first.clock);
      }
    }
  }
}
