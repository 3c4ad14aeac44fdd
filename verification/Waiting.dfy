/**
 Which passes never return. A destruction waits for the lock of everything that the object still
 holds; the lock that is taken to destroy an object is never released, and neither are those of the
 objects in `held`, which the thread that collects has taken for pins of its own.

 The passes of `Collection` and `LargeObjects` are those of a repaired collector that does not wait
 for such locks. The collector as written goes through the same states until it waits forever.
 */
module Waiting {
  import opened Wrappers
  import opened References
  import opened Objects
  import opened Collection
  import opened LargeObjects
  import opened Vectors
  import Runs

  /** The turn of the collection loop at `n` never ends. */
  ghost predicate InspectWaits<N>(h: Heap<N>, n: N, held: set<N>, locks: nat -> bool, clock: nat)
    requires Shaped(h) && Balanced(h) && n in h.refs
  {
    var j := Judge(h, n, locks, clock);
    j.dead && Waits(j.heap, n, held)
  }

  /** `CollectOnPage` as written never returns. */
  ghost predicate PassWaits<N>(h: Heap<N>, list: seq<N>, held: set<N>, locks: nat -> bool, clock: nat)
    requires Shaped(h) && Balanced(h) && forall i :: 0 <= i < |list| ==> list[i] in h.refs
    decreases |list|
  {
    list != [] &&
    var first := Inspect(h, list[0], locks, clock);
    InspectWaits(h, list[0], held, locks, clock) || PassWaits(first.heap, list[1..], held, locks, first.clock)
  }

  /** `CollectLargeObjectsFast` as written never returns. */
  ghost predicate SweepFastWaits<N>(h: Heap<N>, list: seq<N>, i: nat, held: set<N>)
    requires Shaped(h) && Balanced(h) && Listed(h, list)
    decreases |list| - i
  {
    i < |list| &&
    if list[i] in h.flagged then
      ListedAfter(h, Destroy(h, list[i]), list, i);
      Waits(h, list[i], held) || SweepFastWaits(Destroy(h, list[i]), SwapPop(list, i), i, held)
    else SweepFastWaits(h, list, i + 1, held)
  }

  /** `CollectLargeObjectsSlow` as written never returns. */
  ghost predicate SweepSlowWaits<N>(h: Heap<N>, list: seq<N>, i: nat, held: set<N>, locks: nat -> bool, clock: nat)
    requires Shaped(h) && Balanced(h) && Listed(h, list)
    decreases |list| - i
  {
    i < |list| &&
    var first := Inspect(h, list[i], locks, clock);
    if first.dead then
      ListedAfter(h, first.heap, list, i);
      InspectWaits(h, list[i], held, locks, clock) || SweepSlowWaits(first.heap, SwapPop(list, i), i, held, locks, first.clock)
    else SweepSlowWaits(first.heap, list, i + 1, held, locks, first.clock)
  }

  lemma AliveDoesNotWait<N>(h: Heap<N>, n: N, held: set<N>, locks: nat -> bool, clock: nat)
    requires Shaped(h) && Balanced(h) && n in h.refs
    ensures !Inspect(h, n, locks, clock).dead ==> !InspectWaits(h, n, held, locks, clock)
  {
  }

  /** The loop in place: the wait of one turn, and that of the rest. */
  lemma {:induction false} PassWaitsByTurn<N>(h: Heap<N>, on: seq<N>, i: nat, held: set<N>, locks: nat -> bool, clock: nat)
    requires Shaped(h) && Balanced(h) && (forall k :: 0 <= k < |on| ==> on[k] in h.refs) && i < |on|
    ensures var first, erased := Inspect(h, on[i], locks, clock), on[..i] + on[i + 1..];
            PassWaits(h, on[i..], held, locks, clock) <==>
              || InspectWaits(h, on[i], held, locks, clock)
              || (if first.dead then PassWaits(first.heap, erased[i..], held, locks, first.clock)
                  else PassWaits(first.heap, on[i + 1..], held, locks, first.clock))
  {
    hide Shaped, Balanced, Inspect, InspectWaits;
    assert on[i..][0] == on[i] && on[i..][1..] == on[i + 1..];
    assert (on[..i] + on[i + 1..])[i..] == on[i + 1..];
  }

  /** A pass in place that has come to index `i`, and whether it will wait forever. */
  ghost predicate OnTheWay<N>(all: Pass<N>, never: bool, h: Heap<N>, on: seq<N>, i: nat, held: set<N>, locks: nat -> bool, clock: nat) {
    && Shaped(h) && Balanced(h) && (forall k :: 0 <= k < |on| ==> on[k] in h.refs) && i <= |on|
    && Underway(all, h, on, i, locks, clock) && (never <==> PassWaits(h, on[i..], held, locks, clock))
  }

  lemma {:induction false} WayStarts<N>(h: Heap<N>, on: seq<N>, held: set<N>, locks: nat -> bool, clock: nat)
    requires Shaped(h) && Balanced(h) && forall k :: 0 <= k < |on| ==> on[k] in h.refs
    ensures OnTheWay(CollectList(h, on, locks, clock), PassWaits(h, on, held, locks, clock), h, on, 0, held, locks, clock)
  {
    hide Shaped, Balanced, CollectList, PassWaits;
    PassStarts(h, on, locks, clock);
    assert on[0..] == on;
  }

  lemma {:induction false} WayContinues<N>(all: Pass<N>, never: bool, h: Heap<N>, on: seq<N>, i: nat, held: set<N>, locks: nat -> bool, clock: nat)
    requires OnTheWay(all, never, h, on, i, held, locks, clock) && i < |on|
    ensures Shaped(h) && Balanced(h) && on[i] in h.refs
    ensures InspectWaits(h, on[i], held, locks, clock) ==> never
    ensures var first := Inspect(h, on[i], locks, clock);
            !InspectWaits(h, on[i], held, locks, clock) ==>
              if first.dead then OnTheWay(all, never, first.heap, on[..i] + on[i + 1..], i, held, locks, first.clock)
              else OnTheWay(all, never, first.heap, on, i + 1, held, locks, first.clock)
  {
    hide Shaped, Balanced, Inspect, InspectWaits, PassWaits, Underway;
    PassContinues(all, h, on, i, locks, clock);
    PassWaitsByTurn(h, on, i, held, locks, clock);
  }

  lemma {:induction false} WayEnds<N>(all: Pass<N>, never: bool, h: Heap<N>, on: seq<N>, held: set<N>, locks: nat -> bool, clock: nat)
    requires OnTheWay(all, never, h, on, |on|, held, locks, clock)
    ensures all == Pass(h, on, clock) && !never
  {
    PassEnds(all, h, on, locks, clock);
  }

  /** The same for the passes over large objects. */
  ghost predicate OnTheSweep<N>(all: Pass<N>, never: bool, h: Heap<N>, list: seq<N>, i: nat, held: set<N>, locks: nat -> bool, clock: nat) {
    && Shaped(h) && Balanced(h) && Listed(h, list) && i <= |list|
    && SweepSlow(h, list, i, locks, clock) == all && (never <==> SweepSlowWaits(h, list, i, held, locks, clock))
  }

  lemma SweepStarts<N>(h: Heap<N>, list: seq<N>, held: set<N>, locks: nat -> bool, clock: nat)
    requires Shaped(h) && Balanced(h) && Listed(h, list)
    ensures OnTheSweep(SweepSlow(h, list, 0, locks, clock), SweepSlowWaits(h, list, 0, held, locks, clock), h, list, 0, held, locks, clock)
  {
  }

  lemma {:induction false} SweepContinues<N>(all: Pass<N>, never: bool, h: Heap<N>, list: seq<N>, i: nat, held: set<N>, locks: nat -> bool, clock: nat)
    requires OnTheSweep(all, never, h, list, i, held, locks, clock) && i < |list|
    ensures Shaped(h) && Balanced(h) && list[i] in h.refs
    ensures InspectWaits(h, list[i], held, locks, clock) ==> never
    ensures var first := Inspect(h, list[i], locks, clock);
            !InspectWaits(h, list[i], held, locks, clock) ==>
              if first.dead then OnTheSweep(all, never, first.heap, SwapPop(list, i), i, held, locks, first.clock)
              else OnTheSweep(all, never, first.heap, list, i + 1, held, locks, first.clock)
  {
    hide Shaped, Balanced, Inspect, InspectWaits, Distinct, SwapPop;
    AliveDoesNotWait(h, list[i], held, locks, clock);
    ListedAfter(h, Inspect(h, list[i], locks, clock).heap, list, i);
  }

  lemma {:induction false} SweepEnds<N>(all: Pass<N>, never: bool, h: Heap<N>, list: seq<N>, held: set<N>, locks: nat -> bool, clock: nat)
    requires OnTheSweep(all, never, h, list, |list|, held, locks, clock)
    ensures all == Pass(h, list, clock) && !never
  {
  }

  ghost predicate OnTheFastSweep<N>(all: Sweep<N>, never: bool, h: Heap<N>, list: seq<N>, i: nat, held: set<N>) {
    && Shaped(h) && Balanced(h) && Listed(h, list) && i <= |list|
    && SweepFast(h, list, i) == all && (never <==> SweepFastWaits(h, list, i, held))
  }

  lemma FastSweepStarts<N>(h: Heap<N>, list: seq<N>, held: set<N>)
    requires Shaped(h) && Balanced(h) && Listed(h, list)
    ensures OnTheFastSweep(SweepFast(h, list, 0), SweepFastWaits(h, list, 0, held), h, list, 0, held)
  {
  }

  lemma {:induction false} FastSweepContinues<N>(all: Sweep<N>, never: bool, h: Heap<N>, list: seq<N>, i: nat, held: set<N>)
    requires OnTheFastSweep(all, never, h, list, i, held) && i < |list|
    ensures Shaped(h) && Balanced(h) && list[i] in h.refs && list[i] in h.fields
    ensures list[i] !in h.flagged ==> OnTheFastSweep(all, never, h, list, i + 1, held)
    ensures list[i] in h.flagged && Waits(h, list[i], held) ==> never
    ensures list[i] in h.flagged && !Waits(h, list[i], held) ==> OnTheFastSweep(all, never, Destroy(h, list[i]), SwapPop(list, i), i, held)
  {
    hide Balanced, Destroy, Waits, Distinct, SwapPop, WellFormed;
    ListedAfter(h, Destroy(h, list[i]), list, i);
  }

  lemma {:induction false} FastSweepEnds<N>(all: Sweep<N>, never: bool, h: Heap<N>, list: seq<N>, held: set<N>)
    requires OnTheFastSweep(all, never, h, list, |list|, held)
    ensures all == Sweep(h, list) && !never
  {
  }

  // ---------------------------------------------------------------- what makes a pass wait

  /**
   Among objects destroyed one after the other, some initialized one holds itself, an object that
   was destroyed before, one in `held`, or an earlier one.
   */
  ghost predicate HoldsEarlier<N>(h: Heap<N>, victims: seq<N>, held: set<N>) {
    exists j :: 0 <= j < |victims| && Snag(h, victims[j], h.destroyed + held + Earlier(victims, j))
  }

  ghost function Earlier<N>(victims: seq<N>, j: nat): set<N> {
    set k | 0 <= k < j && k < |victims| :: victims[k]
  }

  /** `n` is initialized and holds itself or one of the objects whose locks are kept. */
  ghost predicate Snag<N>(h: Heap<N>, n: N, kept: set<N>) {
    n in h.fields && n !in h.uninitialized && exists t :: t in Targets(h, n, 0) && (t == n || t in kept)
  }

  /** The same, from front to back. */
  ghost predicate Snagged<N>(h: Heap<N>, victims: seq<N>, kept: set<N>) {
    victims != [] && (Snag(h, victims[0], kept) || Snagged(h, victims[1..], kept + {victims[0]}))
  }

  lemma {:induction false} EarlierByOne<N>(victims: seq<N>, j: nat)
    requires victims != []
    ensures Earlier(victims, 0) == {} && Earlier(victims, j + 1) == {victims[0]} + Earlier(victims[1..], j)
  {
    var a, b := Earlier(victims[1..], j), Earlier(victims, j + 1);
    forall x | x in b ensures x == victims[0] || x in a {
      var k :| 0 <= k < j + 1 && k < |victims| && victims[k] == x;
      assert k > 0 ==> victims[1..][k - 1] == x;
    }
    forall x | x in a ensures x in b {
      var k :| 0 <= k < j && k < |victims[1..]| && victims[1..][k] == x;
      assert victims[k + 1] == x;
    }
    assert victims[0] in b;
  }

  lemma {:induction false} SnaggedAt<N>(h: Heap<N>, victims: seq<N>, kept: set<N>)
    ensures Snagged(h, victims, kept) <==> exists j :: 0 <= j < |victims| && Snag(h, victims[j], kept + Earlier(victims, j))
  {
    hide Snag, Earlier;
    if victims != [] {
      var rest := victims[1..];
      SnaggedAt(h, rest, kept + {victims[0]});
      EarlierByOne(victims, 0);
      assert kept + Earlier(victims, 0) == kept;
      forall j | 0 <= j < |rest|
        ensures Snag(h, rest[j], kept + {victims[0]} + Earlier(rest, j)) <==> Snag(h, victims[j + 1], kept + Earlier(victims, j + 1))
      {
        EarlierByOne(victims, j);
        assert kept + {victims[0]} + Earlier(rest, j) == kept + Earlier(victims, j + 1);
      }
      if j :| 0 <= j < |victims| && Snag(h, victims[j], kept + Earlier(victims, j)) {
        if j > 0 {
          assert Snag(h, rest[j - 1], kept + {victims[0]} + Earlier(rest, j - 1));
        }
      }
      if j :| 0 <= j < |rest| && Snag(h, rest[j], kept + {victims[0]} + Earlier(rest, j)) {
        assert Snag(h, victims[j + 1], kept + Earlier(victims, j + 1));
      }
    }
  }

  // ---------------------------------------------------------------- passes over a page

  /** What a pass destroys, in order. */
  ghost function Victims<N>(h: Heap<N>, list: seq<N>, locks: nat -> bool, clock: nat): seq<N>
    requires Shaped(h) && Balanced(h) && forall i :: 0 <= i < |list| ==> list[i] in h.refs
    decreases |list|
  {
    if list == [] then []
    else
      var first := Inspect(h, list[0], locks, clock);
      (if first.dead then [list[0]] else []) + Victims(first.heap, list[1..], locks, first.clock)
  }

  /** The objects of the list have in `h'` the fields that they have in `h`. */
  ghost predicate SameFields<N>(h: Heap<N>, h': Heap<N>, list: seq<N>) {
    forall n :: n in list ==>
      n in h.fields && n in h'.fields && h'.fields[n] == h.fields[n] && (n in h'.uninitialized <==> n in h.uninitialized)
  }

  lemma InspectWaitsIff<N>(h: Heap<N>, n: N, held: set<N>, locks: nat -> bool, clock: nat)
    requires Shaped(h) && Balanced(h) && n in h.refs
    ensures InspectWaits(h, n, held, locks, clock) <==> Inspect(h, n, locks, clock).dead && Snag(h, n, h.destroyed + held)
  {
    hide Balanced, Destroy, WellFormed;
    JudgeAccounts(h, n, locks, clock);
    var j := Judge(h, n, locks, clock);
    assert Targets(j.heap, n, 0) == Targets(h, n, 0);
  }

  lemma {:induction false} SameFieldsAfter<N>(h0: Heap<N>, h: Heap<N>, h': Heap<N>, list: seq<N>)
    requires list != [] && Distinct(list) && SameFields(h0, h, list)
    requires h'.fields.Keys == h.fields.Keys && h'.uninitialized == h.uninitialized
    requires forall m :: m in h.fields && m != list[0] ==> h'.fields[m] == h.fields[m]
    ensures SameFields(h0, h', list[1..]) && Distinct(list[1..])
  {
    forall n | n in list[1..] ensures n in list && n != list[0] {
      var k :| 0 <= k < |list[1..]| && list[1..][k] == n;
      assert list[k + 1] == n;
    }
  }

  lemma {:induction false} SnagSameAt<N>(h0: Heap<N>, h: Heap<N>, list: seq<N>, i: nat, kept: set<N>)
    requires SameFields(h0, h, list) && i < |list|
    ensures list[i] in h.fields && (Snag(h0, list[i], kept) <==> Snag(h, list[i], kept))
  {
    assert Targets(h, list[i], 0) == Targets(h0, list[i], 0);
  }

  /**
   A pass as written waits forever if and only if one of the objects that the repaired pass
   destroys holds itself, something destroyed before it, or something in `held`; their fields are
   those at the start.
   */
  lemma {:induction false} PassWaitsIff<N>(h0: Heap<N>, h: Heap<N>, list: seq<N>, held: set<N>, locks: nat -> bool, clock: nat)
    requires Shaped(h) && Balanced(h) && (forall i :: 0 <= i < |list| ==> list[i] in h.refs)
    requires Distinct(list) && SameFields(h0, h, list)
    ensures PassWaits(h, list, held, locks, clock) <==> Snagged(h0, Victims(h, list, locks, clock), h.destroyed + held)
    decreases |list|
  {
    hide Shaped, Balanced, Inspect, InspectWaits, SameFields, Distinct, Snag;
    if list != [] {
      var first := Inspect(h, list[0], locks, clock);
      InspectKeepsOthers(h, list[0], locks, clock);
      InspectWaitsIff(h, list[0], held, locks, clock);
      InspectAccounts(h, list[0], locks, clock);
      SameFieldsAfter(h0, h, first.heap, list);
      PassWaitsIff(h0, first.heap, list[1..], held, locks, first.clock);
      SnagSameAt(h0, h, list, 0, h.destroyed + held);
      var rest := Victims(first.heap, list[1..], locks, first.clock);
      if first.dead {
        assert ([list[0]] + rest)[1..] == rest;
        assert first.heap.destroyed + held == h.destroyed + held + {list[0]};
      } else {
        assert first.heap.destroyed == h.destroyed;
        assert [] + rest == rest;
      }
    }
  }

  /** The unreachable objects of a list, in order. */
  ghost function Garbage<N>(h: Heap<N>, list: seq<N>): seq<N>
    requires Shaped(h) && forall i :: 0 <= i < |list| ==> list[i] in h.refs
  {
    if list == [] then [] else (if Live(h, list[0]) then [] else [list[0]]) + Garbage(h, list[1..])
  }

  lemma {:induction false} SameGarbage<N>(h: Heap<N>, h': Heap<N>, list: seq<N>)
    requires Shaped(h) && Shaped(h') && SameLive(h, h') && forall i :: 0 <= i < |list| ==> list[i] in h.refs
    ensures Garbage(h', list) == Garbage(h, list)
  {
    hide Shaped, Live;
    if list != [] {
      SameGarbage(h, h', list[1..]);
    }
  }

  lemma {:induction false} VictimsAreGarbage<N>(h: Heap<N>, list: seq<N>, locks: nat -> bool, clock: nat)
    requires Collectable(h) && (forall i :: 0 <= i < |list| ==> list[i] in h.refs) && forall t :: locks(t)
    ensures Victims(h, list, locks, clock) == Garbage(h, list)
    decreases |list|
  {
    hide Shaped, Balanced, FlagsSound, NoLiveCycle, Inspect, Live;
    if list != [] {
      InspectIsExact(h, list[0], locks, clock);
      var first := Inspect(h, list[0], locks, clock);
      VictimsAreGarbage(first.heap, list[1..], locks, first.clock);
      SameGarbage(h, first.heap, list[1..]);
    }
  }

  ghost predicate AllUnreachable<N>(h: Heap<N>, victims: seq<N>)
    requires Shaped(h)
  {
    forall k :: 0 <= k < |victims| ==> victims[k] in h.refs && !Live(h, victims[k])
  }

  lemma {:induction false} VictimsAreUnreachable<N>(h: Heap<N>, list: seq<N>, locks: nat -> bool, clock: nat)
    requires Collectable(h) && forall i :: 0 <= i < |list| ==> list[i] in h.refs
    ensures AllUnreachable(h, Victims(h, list, locks, clock))
    decreases |list|
  {
    hide Shaped, Balanced, FlagsSound, NoLiveCycle, Inspect, Live;
    if list != [] {
      InspectIsExact(h, list[0], locks, clock);
      var first := Inspect(h, list[0], locks, clock);
      VictimsAreUnreachable(first.heap, list[1..], locks, first.clock);
    }
  }

  /**
   With no live cycle and no lock refused, a pass as written never returns if and only if, among
   the unreachable objects of the page in page order, some initialized one holds itself, a
   destroyed object, one in `held`, or an earlier one.
   */
  lemma PassNeverReturnsIff<N>(h: Heap<N>, list: seq<N>, held: set<N>, locks: nat -> bool, clock: nat)
    requires Collectable(h) && (forall i :: 0 <= i < |list| ==> list[i] in h.refs) && Distinct(list)
    requires forall t :: locks(t)
    ensures PassWaits(h, list, held, locks, clock) <==> HoldsEarlier(h, Garbage(h, list), held)
  {
    PassWaitsIff(h, h, list, held, locks, clock);
    VictimsAreGarbage(h, list, locks, clock);
    SnaggedAt(h, Garbage(h, list), h.destroyed + held);
  }

  // ---------------------------------------------------------------- cyclic garbage

  lemma {:induction false} GarbageMembers<N>(h: Heap<N>, list: seq<N>)
    requires Shaped(h) && forall i :: 0 <= i < |list| ==> list[i] in h.refs
    ensures forall n :: n in Garbage(h, list) <==> n in list && !Live(h, n)
  {
    hide Shaped, Live;
    if list != [] {
      GarbageMembers(h, list[1..]);
      assert forall n :: n in list <==> n == list[0] || n in list[1..];
    }
  }

  lemma {:induction false} LastOf<N>(s: seq<N>, members: set<N>) returns (j: nat)
    requires exists n :: n in members && n in s
    ensures j < |s| && s[j] in members && forall k :: j < k < |s| ==> s[k] !in members
  {
    if s[|s| - 1] in members {
      j := |s| - 1;
    } else {
      var n :| n in members && n in s;
      assert n in s[..|s| - 1];
      j := LastOf(s[..|s| - 1], members);
      assert forall k :: 0 <= k < |s| - 1 ==> s[..|s| - 1][k] == s[k];
    }
  }

  lemma {:induction false} CycleSnags<N>(h: Heap<N>, victims: seq<N>, cycle: set<N>, held: set<N>)
    requires cycle != {} && forall n :: n in cycle ==> n in victims && n in h.fields && n !in h.uninitialized
    requires forall n :: n in cycle ==> exists t :: t in cycle && t in Targets(h, n, 0)
    ensures HoldsEarlier(h, victims, held)
  {
    hide Targets;
    var n :| n in cycle;
    var j := LastOf(victims, cycle);
    var t :| t in cycle && t in Targets(h, victims[j], 0);
    var k :| 0 <= k < |victims| && victims[k] == t;
    assert k < j ==> victims[k] in Earlier(victims, j);
    assert Snag(h, victims[j], h.destroyed + held + Earlier(victims, j));
  }

  /**
   Cyclic garbage that lies on one page is never reclaimed by the collector as written: at the
   last of its objects the pass waits for the lock of one destroyed before.
   */
  lemma CyclesAreNotReclaimed<N>(h: Heap<N>, list: seq<N>, cycle: set<N>, held: set<N>, locks: nat -> bool, clock: nat)
    requires Collectable(h) && (forall i :: 0 <= i < |list| ==> list[i] in h.refs) && Distinct(list)
    requires (forall t :: locks(t)) && cycle != {}
    requires forall n :: n in cycle ==> n in list && !Live(h, n) && n !in h.uninitialized
    requires forall n :: n in cycle ==> exists t :: t in cycle && t in Targets(h, n, 0)
    ensures PassWaits(h, list, held, locks, clock)
  {
    hide Live, HoldsEarlier, Balanced, FlagsSound, NoLiveCycle;
    PassNeverReturnsIff(h, list, held, locks, clock);
    GarbageMembers(h, list);
    CycleSnags(h, Garbage(h, list), cycle, held);
  }

  lemma WithoutRoots<N>(h: Heap<N>)
    requires Shaped(h) && Balanced(h) && h.flagged == {} && forall n :: n in h.roots ==> h.roots[n] == 0
    ensures Collectable(h) && forall n :: n in h.refs ==> !Live(h, n)
  {
    Barrier(GraphOf(h), {}, h.refs.Keys);
  }

  /** Garbage `a` and `b` that hold each other. */
  function EachOther(): Heap<char> {
    Heap(map['a' := ['b'], 'b' := ['a']], map['a' := [Some('b')], 'b' := [Some('a')]], map['a' := 0, 'b' := 0], {}, {}, {})
  }

  lemma EachOtherIsShaped()
    ensures Shaped(EachOther())
  {
  }

  lemma EachOtherIsBalanced()
    ensures Shaped(EachOther()) && Balanced(EachOther())
  {
    hide Shaped;
    EachOtherIsShaped();
    forall s, d | s in EachOther().refs && d in EachOther().refs
      ensures RefCount(EachOther(), d, s) == FieldCount(EachOther(), s, d)
    {
      if s == 'a' {
      } else {
        assert s == 'b';
      }
    }
  }

  lemma EachOtherHolds()
    ensures 'b' in Targets(EachOther(), 'a', 0) && 'a' in Targets(EachOther(), 'b', 0)
    ensures EachOther().refs.Keys == {'a', 'b'} && EachOther().fields.Keys == {'a', 'b'} && EachOther().uninitialized == {}
  {
    assert EachOther().fields['a'][0].value in Targets(EachOther(), 'a', 0);
    assert EachOther().fields['b'][0].value in Targets(EachOther(), 'b', 0);
  }

  lemma EachOtherIsGarbage()
    ensures Collectable(EachOther()) && !Live(EachOther(), 'a') && !Live(EachOther(), 'b')
  {
    hide Shaped, Balanced, FlagsSound, NoLiveCycle, Live;
    EachOtherIsBalanced();
    WithoutRoots(EachOther());
  }

  lemma PairNeverReturns<N>(h: Heap<N>, m: N, n: N, held: set<N>, locks: nat -> bool, clock: nat)
    requires Collectable(h) && m in h.refs && n in h.refs && m != n && !Live(h, m) && !Live(h, n)
    requires m !in h.uninitialized && n !in h.uninitialized && n in Targets(h, m, 0) && m in Targets(h, n, 0)
    requires forall t :: locks(t)
    ensures PassWaits(h, [m, n], held, locks, clock)
  {
    hide Live, PassWaits, Targets, Balanced, FlagsSound, NoLiveCycle;
    var cycle := {m, n};
    assert m in [m, n] && n in [m, n];
    forall x | x in cycle ensures exists t :: t in cycle && t in Targets(h, x, 0) {
      assert (if x == m then n else m) in Targets(h, x, 0);
    }
    CyclesAreNotReclaimed(h, [m, n], cycle, held, locks, clock);
  }

  /** The pass over them never returns, in either order. */
  lemma CycleExample(held: set<char>, locks: nat -> bool)
    requires forall t :: locks(t)
    ensures PassWaits(EachOther(), ['a', 'b'], held, locks, 0) && PassWaits(EachOther(), ['b', 'a'], held, locks, 0)
  {
    hide EachOther, Live, PassWaits, Targets, Shaped, Balanced, FlagsSound, NoLiveCycle;
    EachOtherHolds();
    EachOtherIsGarbage();
    PairNeverReturns(EachOther(), 'a', 'b', held, locks, 0);
    PairNeverReturns(EachOther(), 'b', 'a', held, locks, 0);
  }

  /** Garbage `a` that holds garbage `b`. */
  function Chain(): Heap<char> {
    Heap(map['a' := [], 'b' := ['a']], map['a' := [Some('b')], 'b' := []], map['a' := 0, 'b' := 0], {}, {}, {})
  }

  lemma ChainIsGarbage()
    ensures Collectable(Chain()) && !Live(Chain(), 'a') && !Live(Chain(), 'b')
    ensures Targets(Chain(), 'a', 0) == {'b'} && Targets(Chain(), 'b', 0) == {}
  {
    WithoutRoots(Chain());
    assert Chain().fields['a'][0].value in Targets(Chain(), 'a', 0);
  }

  lemma ChainSnags()
    ensures Snagged(Chain(), ['b', 'a'], {}) && !Snagged(Chain(), ['a', 'b'], {})
  {
    hide Targets, Collectable, Live;
    ChainIsGarbage();
    assert ['b', 'a'][1..] == ['a'] && ['a', 'b'][1..] == ['b'] && ['b'][1..] == [];
    assert Snag(Chain(), 'a', {} + {'b'});
    assert !Snag(Chain(), 'a', {}) && !Snag(Chain(), 'b', {} + {'a'});
    assert !Snagged(Chain(), ['b'], {} + {'a'});
  }

  lemma GarbagePair<N>(h: Heap<N>, m: N, n: N)
    requires Shaped(h) && m in h.refs && n in h.refs && !Live(h, m) && !Live(h, n)
    ensures Garbage(h, [m, n]) == [m, n]
  {
    hide Shaped, Live;
    assert [m, n][1..] == [n] && [n][1..] == [];
    assert Garbage(h, [n]) == [n];
  }

  /** The pass over them returns if `a` comes first on the page, and never if `b` does. */
  lemma ChainExample(locks: nat -> bool)
    requires forall t :: locks(t)
    ensures PassWaits(Chain(), ['b', 'a'], {}, locks, 0) && !PassWaits(Chain(), ['a', 'b'], {}, locks, 0)
  {
    hide Live, PassWaits, Targets, Shaped, Balanced, FlagsSound, NoLiveCycle, Snagged, Garbage;
    ChainIsGarbage();
    ChainSnags();
    assert Chain().destroyed + {} == {};
    PassWaitsIff(Chain(), Chain(), ['b', 'a'], {}, locks, 0);
    PassWaitsIff(Chain(), Chain(), ['a', 'b'], {}, locks, 0);
    VictimsAreGarbage(Chain(), ['b', 'a'], locks, 0);
    VictimsAreGarbage(Chain(), ['a', 'b'], locks, 0);
    GarbagePair(Chain(), 'b', 'a');
    GarbagePair(Chain(), 'a', 'b');
  }

  // ---------------------------------------------------------------- a live cycle

  /** The root `r` holds `a`, and `a` and `b` hold each other, as a run of clients may leave them. */
  ghost function Held(): Heap<char> {
    Runs.LiveCycle().heap
  }

  lemma HeldIsBalanced()
    ensures Shaped(Held()) && Balanced(Held()) && GraphOf(Held()) == Graph(Held().refs, {'r'})
  {
    hide Shaped, Balanced, Runs.Reached;
    Runs.LiveCycleReached();
    Runs.ReachedIsGood(Runs.LiveCycle());
  }

  lemma HeldIsGood()
    ensures Good(Held()) && GraphOf(Held()) == Graph(Held().refs, {'r'})
  {
    hide Shaped, Balanced;
    HeldIsBalanced();
  }

  lemma HeldFlagged()
    ensures var h := Held().(flagged := {'a', 'b'}); Shaped(h) && Balanced(h) && 'b' in h.refs
    ensures Targets(Held().(flagged := {'a', 'b'}), 'b', 0) == {'a'}
  {
    hide Balanced;
    HeldIsBalanced();
    HeldTargets();
    FlagsDoNotBalance(Held(), Held().(flagged := {'a', 'b'}));
  }

  lemma HeldTargets()
    ensures Targets(Held().(flagged := {'a', 'b'}), 'b', 0) == {'a'}
  {
    assert Held().fields['b'][0].value == 'a';
  }

  lemma PassOfOne<N>(h: Heap<N>, n: N, held: set<N>, locks: nat -> bool, clock: nat)
    requires Shaped(h) && Balanced(h) && n in h.refs
    ensures PassWaits(h, [n], held, locks, clock) <==> InspectWaits(h, n, held, locks, clock)
  {
    assert [n][1..] == [];
  }

  lemma HeldIsReachable(locks: nat -> bool)
    requires forall t :: locks(t)
    ensures Good(Held()) && Live(Held(), 'a') && Live(Held(), 'b')
    ensures Search(GraphOf(Held()), {}, {}, 'a', locks, 2) == Outcome(true, {'a', 'b'}, 4)
  {
    hide Good, Search, Reachable;
    HeldIsGood();
    LiveCycleCounterexample(locks, 2);
  }

  /** What the pass over `a` does. */
  lemma HeldTurn(held: set<char>, locks: nat -> bool)
    requires forall t :: locks(t)
    ensures Good(Held()) && !InspectWaits(Held(), 'a', held, locks, 0)
    ensures CollectList(Held(), ['a'], locks, 0) == Pass(Held().(flagged := {'a', 'b'}), ['a'], 4)
  {
    hide Good, Search, Live;
    HeldIsReachable(locks);
    assert ['a'][1..] == [];
  }

  /**
   A pass over `a` flags the reachable object `b`, and a pass over `b` destroys it; neither of them
   waits, so that the code as written gets there.
   */
  lemma LostExample(held: set<char>, locks: nat -> bool)
    requires (forall t :: locks(t)) && 'a' !in held
    ensures Good(Held()) && Live(Held(), 'b')
    ensures var first := CollectList(Held(), ['a'], locks, 0);
            && !PassWaits(Held(), ['a'], held, locks, 0)
            && 'b' in first.heap.refs && !PassWaits(first.heap, ['b'], held, locks, first.clock)
            && 'b' in CollectList(first.heap, ['b'], locks, first.clock).heap.destroyed
  {
    hide Good, Shaped, Balanced, Live, Inspect, PassWaits, InspectWaits, CollectList, Search, Targets, FlagsSound;
    HeldIsBalanced();
    HeldFlagged();
    HeldIsReachable(locks);
    HeldTurn(held, locks);
    FlaggedIsLost(Held(), 'a', 'b', locks, 0);
    PassOfOne(Held(), 'a', held, locks, 0);
    var flagged := Held().(flagged := {'a', 'b'});
    PassOfOne(flagged, 'b', held, locks, 4);
    InspectWaitsIff(flagged, 'b', held, locks, 4);
  }

  // ---------------------------------------------------------------- a pin of the collecting thread

  /**
   Garbage `n` holds `t`, which the client has pinned, and nothing else is wrong with the heap. A
   pass by the thread of that client never returns; one by another thread does, once the pin is
   given up.
   */
  lemma PinnedExample(locks: nat -> bool)
    requires forall t :: locks(t)
    ensures var s := Runs.PinnedTarget();
            && Runs.Reached(s) && Runs.Pinned(s, 't') && Collectable(s.heap) && Detached(s.heap, {}) && 'n' in s.heap.refs
            && PassWaits(s.heap, ['n'], Runs.PinsOf(s), locks, 0) && !PassWaits(s.heap, ['n'], {}, locks, 0)
  {
    hide Runs.Reached, Runs.PinsOf, PassWaits, InspectWaits, Inspect, Targets, Shaped, Balanced, FlagsSound, NoLiveCycle, Live, HeldByGarbage;
    Runs.PinnedTargetReached();
    Runs.PinnedTargetIsPinned();
    var h := Runs.PinnedTarget().heap;
    Runs.ReachedIsGood(Runs.PinnedTarget());
    PinnedTargetHolds();
    PinnedTargetTurn(locks);
    PassOfOne(h, 'n', Runs.PinsOf(Runs.PinnedTarget()), locks, 0);
    PassOfOne(h, 'n', {}, locks, 0);
    InspectWaitsIff(h, 'n', Runs.PinsOf(Runs.PinnedTarget()), locks, 0);
    InspectWaitsIff(h, 'n', {}, locks, 0);
  }

  lemma PinnedTargetTurn(locks: nat -> bool)
    requires (forall t :: locks(t)) && Good(Runs.PinnedTarget().heap)
    ensures Inspect(Runs.PinnedTarget().heap, 'n', locks, 0).dead
  {
    hide Good, Search;
  }

  lemma PinnedTargetHolds()
    requires Good(Runs.PinnedTarget().heap)
    ensures var h := Runs.PinnedTarget().heap;
            && Targets(h, 'n', 0) == {'t'} && NoLiveCycle(GraphOf(h)) && HeldByGarbage(h) <= {'t'} && Live(h, 't')
  {
    hide Balanced, FlagsSound, Live;
    var h := Runs.PinnedTarget().heap;
    assert h.fields['n'][0].value == 't';
    assert Targets(h, 't', 0) == {};
    Runs.RootIsLive(h, 't');
  }

  // ---------------------------------------------------------------- a heap on which nothing waits

  lemma {:induction false} DetachedIsUnsnagged<N>(h: Heap<N>, victims: seq<N>, kept: set<N>, held: set<N>)
    requires Good(h) && Detached(h, held) && AllUnreachable(h, victims)
    requires forall t :: t in kept && t in h.refs ==> !Live(h, t) || t in held
    ensures !Snagged(h, victims, kept)
  {
    hide Shaped, Balanced, Live;
    if victims != [] {
      DetachedIsUnsnagged(h, victims[1..], kept + {victims[0]}, held);
      assert victims[0] in h.refs && !Live(h, victims[0]);
    }
  }

  /** With no live cycle and no garbage holding garbage or what is in `held` every pass returns, whichever locks are refused. */
  lemma DetachedPassReturns<N>(h: Heap<N>, list: seq<N>, held: set<N>, locks: nat -> bool, clock: nat)
    requires Collectable(h) && Detached(h, held) && (forall i :: 0 <= i < |list| ==> list[i] in h.refs) && Distinct(list)
    ensures !PassWaits(h, list, held, locks, clock)
  {
    PassWaitsIff(h, h, list, held, locks, clock);
    VictimsAreUnreachable(h, list, locks, clock);
    DestroyedIsUnreachable(h);
    DetachedIsUnsnagged(h, Victims(h, list, locks, clock), h.destroyed + held, held);
  }

  lemma OrderlyPassReturns<N>(h: Heap<N>, list: seq<N>, held: set<N>, locks: nat -> bool, clock: nat)
    requires Shaped(h) && Balanced(h) && (forall i :: 0 <= i < |list| ==> list[i] in h.refs) && Distinct(list)
    ensures Orderly(h, held) ==> !PassWaits(h, list, held, locks, clock)
  {
    hide PassWaits, Detached, NoLiveCycle, FlagsSound;
    if Orderly(h, held) {
      DetachedPassReturns(h, list, held, locks, clock);
    }
  }

  // ---------------------------------------------------------------- the passes over large objects

  lemma {:induction false} SameFieldsSwapped<N>(h0: Heap<N>, h: Heap<N>, h': Heap<N>, list: seq<N>, i: nat)
    requires i < |list| && Listed(h, list) && SameFields(h0, h, list)
    requires h'.fields.Keys == h.fields.Keys && h'.uninitialized == h.uninitialized
    requires forall m :: m in h.fields && m != list[i] ==> h'.fields[m] == h.fields[m]
    ensures SameFields(h0, h', SwapPop(list, i))
  {
    SwapPopMembers(list, i);
  }

  /** What the slow pass destroys, in order. */
  ghost function SlowVictims<N>(h: Heap<N>, list: seq<N>, i: nat, locks: nat -> bool, clock: nat): seq<N>
    requires Shaped(h) && Balanced(h) && Listed(h, list)
    decreases |list| - i
  {
    if i >= |list| then []
    else
      var first := Inspect(h, list[i], locks, clock);
      if first.dead then
        ListedAfter(h, first.heap, list, i);
        [list[i]] + SlowVictims(first.heap, SwapPop(list, i), i, locks, first.clock)
      else SlowVictims(first.heap, list, i + 1, locks, first.clock)
  }

  lemma {:induction false} SweepSlowWaitsIff<N>(h0: Heap<N>, h: Heap<N>, list: seq<N>, i: nat, held: set<N>, locks: nat -> bool, clock: nat)
    requires Shaped(h) && Balanced(h) && Listed(h, list) && SameFields(h0, h, list)
    ensures SweepSlowWaits(h, list, i, held, locks, clock) <==> Snagged(h0, SlowVictims(h, list, i, locks, clock), h.destroyed + held)
    decreases |list| - i
  {
    hide Shaped, Balanced, Inspect, InspectWaits, SameFields, Distinct, Snag, SwapPop;
    if i < |list| {
      var first := Inspect(h, list[i], locks, clock);
      InspectKeepsOthers(h, list[i], locks, clock);
      InspectWaitsIff(h, list[i], held, locks, clock);
      InspectAccounts(h, list[i], locks, clock);
      SnagSameAt(h0, h, list, i, h.destroyed + held);
      if first.dead {
        ListedAfter(h, first.heap, list, i);
        SameFieldsSwapped(h0, h, first.heap, list, i);
        SweepSlowWaitsIff(h0, first.heap, SwapPop(list, i), i, held, locks, first.clock);
        var rest := SlowVictims(first.heap, SwapPop(list, i), i, locks, first.clock);
        assert ([list[i]] + rest)[1..] == rest;
        assert first.heap.destroyed + held == h.destroyed + held + {list[i]};
      } else {
        assert first.heap.destroyed == h.destroyed;
        SameFieldsKept(h0, h, first.heap, list);
        SweepSlowWaitsIff(h0, first.heap, list, i + 1, held, locks, first.clock);
      }
    }
  }

  lemma {:induction false} SameFieldsKept<N>(h0: Heap<N>, h: Heap<N>, h': Heap<N>, list: seq<N>)
    requires SameFields(h0, h, list) && h'.fields.Keys == h.fields.Keys && h'.uninitialized == h.uninitialized
    requires forall m :: m in h.fields ==> h'.fields[m] == h.fields[m]
    ensures SameFields(h0, h', list)
  {
  }

  /** The unreachable objects of the list in the order in which a pass that swaps with the last one gets to them. */
  ghost function SwapOrder<N>(h: Heap<N>, list: seq<N>, i: nat): seq<N>
    requires Shaped(h) && Listed(h, list)
    decreases |list| - i
  {
    if i >= |list| then []
    else if Live(h, list[i]) then SwapOrder(h, list, i + 1)
    else
      ListedAfter(h, h, list, i);
      [list[i]] + SwapOrder(h, SwapPop(list, i), i)
  }

  lemma {:induction false} SameSwapOrder<N>(h: Heap<N>, h': Heap<N>, list: seq<N>, i: nat)
    requires Shaped(h) && Shaped(h') && SameLive(h, h') && Listed(h, list)
    ensures Listed(h', list) && SwapOrder(h', list, i) == SwapOrder(h, list, i)
    decreases |list| - i
  {
    hide Shaped, Live, SwapPop, Distinct;
    if i < |list| {
      if Live(h, list[i]) {
        SameSwapOrder(h, h', list, i + 1);
      } else {
        ListedAfter(h, h, list, i);
        SameSwapOrder(h, h', SwapPop(list, i), i);
      }
    }
  }

  lemma {:induction false} SlowVictimsAreGarbage<N>(h: Heap<N>, list: seq<N>, i: nat, locks: nat -> bool, clock: nat)
    requires Collectable(h) && Listed(h, list) && forall t :: locks(t)
    ensures SlowVictims(h, list, i, locks, clock) == SwapOrder(h, list, i)
    decreases |list| - i
  {
    hide Shaped, Balanced, FlagsSound, NoLiveCycle, Inspect, Live, SwapPop, Distinct;
    if i < |list| {
      InspectIsExact(h, list[i], locks, clock);
      var first := Inspect(h, list[i], locks, clock);
      if first.dead {
        ListedAfter(h, first.heap, list, i);
        SlowVictimsAreGarbage(first.heap, SwapPop(list, i), i, locks, first.clock);
        ListedAfter(h, h, list, i);
        SameSwapOrder(h, first.heap, SwapPop(list, i), i);
      } else {
        SlowVictimsAreGarbage(first.heap, list, i + 1, locks, first.clock);
        SameSwapOrder(h, first.heap, list, i + 1);
      }
    }
  }

  /**
   With no live cycle and no lock refused, the slow pass as written never returns if and only if,
   among the unreachable large objects in the order in which it gets to them, some initialized one
   holds itself, a destroyed object, one in `held`, or an earlier one.
   */
  lemma SlowNeverReturnsIff<N>(h: Heap<N>, list: seq<N>, held: set<N>, locks: nat -> bool, clock: nat)
    requires Collectable(h) && Listed(h, list) && forall t :: locks(t)
    ensures SweepSlowWaits(h, list, 0, held, locks, clock) <==> HoldsEarlier(h, SwapOrder(h, list, 0), held)
  {
    SweepSlowWaitsIff(h, h, list, 0, held, locks, clock);
    SlowVictimsAreGarbage(h, list, 0, locks, clock);
    SnaggedAt(h, SwapOrder(h, list, 0), h.destroyed + held);
  }

  lemma {:induction false} SlowVictimsAreUnreachable<N>(h: Heap<N>, list: seq<N>, i: nat, locks: nat -> bool, clock: nat)
    requires Collectable(h) && Listed(h, list)
    ensures AllUnreachable(h, SlowVictims(h, list, i, locks, clock))
    decreases |list| - i
  {
    hide Shaped, Balanced, FlagsSound, NoLiveCycle, Inspect, Live, SwapPop, Distinct;
    if i < |list| {
      InspectIsExact(h, list[i], locks, clock);
      var first := Inspect(h, list[i], locks, clock);
      if first.dead {
        ListedAfter(h, first.heap, list, i);
        SlowVictimsAreUnreachable(first.heap, SwapPop(list, i), i, locks, first.clock);
      } else {
        SlowVictimsAreUnreachable(first.heap, list, i + 1, locks, first.clock);
      }
    }
  }

  lemma DetachedSlowReturns<N>(h: Heap<N>, list: seq<N>, held: set<N>, locks: nat -> bool, clock: nat)
    requires Collectable(h) && Detached(h, held) && Listed(h, list)
    ensures !SweepSlowWaits(h, list, 0, held, locks, clock)
  {
    SweepSlowWaitsIff(h, h, list, 0, held, locks, clock);
    SlowVictimsAreUnreachable(h, list, 0, locks, clock);
    DestroyedIsUnreachable(h);
    DetachedIsUnsnagged(h, SlowVictims(h, list, 0, locks, clock), h.destroyed + held, held);
  }

  /** What the fast pass destroys, in order: flagged objects, and such as lose their last reference meanwhile. */
  ghost function FastVictims<N>(h: Heap<N>, list: seq<N>, i: nat): seq<N>
    requires Shaped(h) && Balanced(h) && Listed(h, list)
    decreases |list| - i
  {
    if i >= |list| then []
    else if list[i] in h.flagged then
      ListedAfter(h, Destroy(h, list[i]), list, i);
      [list[i]] + FastVictims(Destroy(h, list[i]), SwapPop(list, i), i)
    else FastVictims(h, list, i + 1)
  }

  lemma WaitsIsSnag<N>(h: Heap<N>, n: N, held: set<N>)
    requires n in h.fields
    ensures Waits(h, n, held) <==> Snag(h, n, h.destroyed + held)
  {
  }

  lemma {:induction false} SweepFastWaitsIff<N>(h0: Heap<N>, h: Heap<N>, list: seq<N>, i: nat, held: set<N>)
    requires Shaped(h) && Balanced(h) && Listed(h, list) && SameFields(h0, h, list)
    ensures SweepFastWaits(h, list, i, held) <==> Snagged(h0, FastVictims(h, list, i), h.destroyed + held)
    decreases |list| - i
  {
    hide Shaped, Balanced, Destroy, SameFields, Distinct, SwapPop, Snag, Waits;
    if i < |list| {
      SnagSameAt(h0, h, list, i, h.destroyed + held);
      if list[i] in h.flagged {
        var h1 := Destroy(h, list[i]);
        DestroyKeepsOthers(h, list[i]);
        DestroyAccounts(h, list[i]);
        ListedAfter(h, h1, list, i);
        SameFieldsSwapped(h0, h, h1, list, i);
        SweepFastWaitsIff(h0, h1, SwapPop(list, i), i, held);
        var rest := FastVictims(h1, SwapPop(list, i), i);
        assert h1.destroyed + held == h.destroyed + held + {list[i]};
        WaitsIsSnag(h, list[i], held);
        assert ([list[i]] + rest)[1..] == rest;
      } else {
        SweepFastWaitsIff(h0, h, list, i + 1, held);
      }
    }
  }

  /**
   Nothing leads to `d` any more once the objects `gone` are destroyed: it has no root handle,
   initialized ones of them held it, and nothing else does.
   */
  ghost predicate Dropped<N>(h: Heap<N>, gone: set<N>, d: N) {
    && d in h.roots && h.roots[d] == 0
    && (exists m :: m in gone && m in h.fields && m !in h.uninitialized && d in Targets(h, m, 0))
    && (forall m :: m in h.fields && d in Targets(h, m, 0) ==> m in gone && m !in h.uninitialized)
  }

  /**
   What the fast pass destroys, in order, read off the heap at its start: what is flagged then, and
   what those objects alone held that were destroyed before. A destroyed one is replaced by the last
   one of the list.
   */
  ghost function FastOrder<N>(h: Heap<N>, list: seq<N>, i: nat, gone: set<N>): seq<N>
    requires Listed(h, list)
    decreases |list| - i
  {
    if i >= |list| then []
    else if list[i] in h.flagged || Dropped(h, gone, list[i]) then
      ListedAfter(h, h, list, i);
      [list[i]] + FastOrder(h, SwapPop(list, i), i, gone + {list[i]})
    else FastOrder(h, list, i + 1, gone)
  }

  /** `h'` is what destroying the objects `gone` makes of `h`. */
  ghost predicate Without<N>(h: Heap<N>, h': Heap<N>, gone: set<N>) {
    && h'.refs.Keys == h.refs.Keys && h'.fields.Keys == h.fields.Keys && h'.roots == h.roots && h'.uninitialized == h.uninitialized
    && (forall m :: m in h.fields ==>
          Targets(h', m, 0) == if m in gone && m !in h.uninitialized then {} else Targets(h, m, 0))
    && (forall d :: d in h.refs ==> (d in h'.flagged <==> d in h.flagged || d in gone || Dropped(h, gone, d)))
  }

  lemma NoneIsDropped<N>(h: Heap<N>)
    ensures Without(h, h, {})
  {
  }

  lemma UnheldByTargets<N>(h: Heap<N>, d: N)
    requires d in h.roots
    ensures Forgotten(h, d) <==> h.roots[d] == 0 && forall s :: s in h.fields ==> d !in Targets(h, s, 0)
  {
    if Forgotten(h, d) {
      forall s | s in h.fields ensures d !in Targets(h, s, 0) {
      }
    }
    if h.roots[d] == 0 && forall s :: s in h.fields ==> d !in Targets(h, s, 0) {
      forall s | s in h.fields ensures Some(d) !in h.fields[s] {
        assert forall k :: 0 <= k < |h.fields[s]| && h.fields[s][k].Some? ==> h.fields[s][k].value in Targets(h, s, 0);
      }
    }
  }

  /** What destroying `n` does, in terms of targets. */
  lemma DestroyTargets<N>(h: Heap<N>, n: N)
    requires Shaped(h) && Balanced(h) && n in h.refs
    ensures var h' := Destroy(h, n);
            && h'.fields.Keys == h.fields.Keys && h'.roots == h.roots && h'.uninitialized == h.uninitialized
            && (forall m :: m in h.fields ==> Targets(h', m, 0) == if m == n && n !in h.uninitialized then {} else Targets(h, m, 0))
            && (n in h.uninitialized ==> h'.flagged == h.flagged + {n})
            && (n !in h.uninitialized ==> h'.flagged == h.flagged + {n} + set d | d in Targets(h, n, 0) && Forgotten(h', d))
  {
    DestroyKeepsOthers(h, n);
    DestroyAccounts(h, n);
    if n !in h.uninitialized {
      DestroyEffect(h, n);
    }
    var h' := Destroy(h, n);
    forall m | m in h.fields ensures Targets(h', m, 0) == if m == n && n !in h.uninitialized then {} else Targets(h, m, 0) {
      assert m != n ==> h'.fields[m] == h.fields[m];
      assert m == n && n in h.uninitialized ==> h'.fields[m] == h.fields[m];
    }
  }

  lemma WithoutOneMore<N>(h: Heap<N>, h': Heap<N>, gone: set<N>, n: N)
    requires Shaped(h) && Shaped(h') && Balanced(h') && Without(h, h', gone) && n in h.refs && n !in gone
    ensures Without(h, Destroy(h', n), gone + {n})
  {
    hide Balanced, Destroy, WellFormed, Targets, Forgotten, Dropped;
    DestroyTargets(h', n);
    var h'' := Destroy(h', n);
    forall d | d in h.refs ensures d in h''.flagged <==> d in h.flagged || d in gone + {n} || Dropped(h, gone + {n}, d) {
      FlaggedOneMore(h, h', gone, n, d);
    }
  }

  lemma FlaggedOneMore<N>(h: Heap<N>, h': Heap<N>, gone: set<N>, n: N, d: N)
    requires Shaped(h) && Shaped(h') && Balanced(h') && Without(h, h', gone) && n in h.refs && n !in gone && d in h.refs
    ensures d in Destroy(h', n).flagged <==> d in h.flagged || d in gone + {n} || Dropped(h, gone + {n}, d)
  {
    hide Balanced, Destroy, WellFormed, Targets, Forgotten, Dropped;
    DestroyTargets(h', n);
    UnheldByTargets(Destroy(h', n), d);
    StillDropped(h, h', gone, n, d);
  }

  lemma StillDropped<N>(h: Heap<N>, h': Heap<N>, gone: set<N>, n: N, d: N)
    requires Without(h, h', gone) && n in h.fields && n !in gone && d in h.roots
    ensures Dropped(h, gone + {n}, d) <==>
              || Dropped(h, gone, d)
              || (n !in h.uninitialized && d in Targets(h', n, 0) && h.roots[d] == 0
                  && forall m :: m in h.fields && m != n ==> d !in Targets(h', m, 0))
  {
    hide Targets;
  }

  lemma {:induction false} FastVictimsAre<N>(h: Heap<N>, h': Heap<N>, list: seq<N>, i: nat, gone: set<N>)
    requires Shaped(h) && Shaped(h') && Balanced(h') && Listed(h, list) && Without(h, h', gone) && forall n :: n in list ==> n !in gone
    ensures Listed(h', list) && FastVictims(h', list, i) == FastOrder(h, list, i, gone)
    decreases |list| - i
  {
    hide Shaped, Balanced, Destroy, Without, Dropped, SwapPop;
    WithoutKeys(h, h', gone);
    if i < |list| {
      var n := list[i];
      assert n in list;
      WithoutMeans(h, h', gone, n);
      if n in h'.flagged {
        WithoutOneMore(h, h', gone, n);
        ListedAfter(h, h, list, i);
        SwapPopMembers(list, i);
        FastVictimsAre(h, Destroy(h', n), SwapPop(list, i), i, gone + {n});
      } else {
        FastVictimsAre(h, h', list, i + 1, gone);
      }
    }
  }

  lemma WithoutKeys<N>(h: Heap<N>, h': Heap<N>, gone: set<N>)
    requires Without(h, h', gone)
    ensures h'.refs.Keys == h.refs.Keys
  {
  }

  lemma WithoutMeans<N>(h: Heap<N>, h': Heap<N>, gone: set<N>, n: N)
    requires Without(h, h', gone) && n in h.refs && n !in gone
    ensures n in h'.flagged <==> n in h.flagged || Dropped(h, gone, n)
  {
  }

  /**
   The fast pass as written never returns if and only if one of the objects that it comes to, all of
   which can be told from the heap and the list at its start, is initialized and holds itself,
   something destroyed before it, or what the calling thread has pinned.
   */
  lemma FastNeverReturnsIff<N>(h: Heap<N>, list: seq<N>, held: set<N>)
    requires Shaped(h) && Balanced(h) && Listed(h, list)
    ensures SweepFastWaits(h, list, 0, held) <==> HoldsEarlier(h, FastOrder(h, list, 0, {}), held)
  {
    SweepFastWaitsIff(h, h, list, 0, held);
    NoneIsDropped(h);
    FastVictimsAre(h, h, list, 0, {});
    SnaggedAt(h, FastVictims(h, list, 0), h.destroyed + held);
  }

  lemma {:induction false} FastVictimsAreUnreachable<N>(h: Heap<N>, list: seq<N>, i: nat)
    requires Good(h) && Listed(h, list)
    ensures AllUnreachable(h, FastVictims(h, list, i))
    decreases |list| - i
  {
    hide Balanced, Destroy, Live, SwapPop, Distinct, WellFormed, NoLiveCycle, AllUnreachable;
    if i >= |list| {
      NoneUnreachable(h);
    } else if list[i] in h.flagged {
      FlaggedIsDead(h, list[i]);
      DestroyingGarbage(h, list[i]);
      var h', rest := Destroy(h, list[i]), SwapPop(list, i);
      ListedAfter(h, h', list, i);
      FastVictimsAreUnreachable(h', rest, i);
      UnreachableToo(h, h', list[i], FastVictims(h', rest, i));
    } else {
      FastVictimsAreUnreachable(h, list, i + 1);
    }
  }

  lemma NoneUnreachable<N>(h: Heap<N>)
    requires Shaped(h)
    ensures AllUnreachable(h, [])
  {
  }

  lemma UnreachableToo<N>(h: Heap<N>, h': Heap<N>, n: N, rest: seq<N>)
    requires Shaped(h) && Shaped(h') && SameLive(h, h') && n in h.refs && !Live(h, n) && AllUnreachable(h', rest)
    ensures AllUnreachable(h, [n] + rest)
  {
    hide Shaped, Live;
    forall k | 0 <= k < |rest| ensures rest[k] in h.refs && !Live(h, rest[k]) {
    }
  }

  lemma FlaggedIsDead<N>(h: Heap<N>, n: N)
    requires Good(h) && n in h.flagged
    ensures n in h.refs && !Live(h, n)
  {
  }

  /** On such a heap the fast pass returns even if there are live cycles. */
  lemma DetachedFastReturns<N>(h: Heap<N>, list: seq<N>, held: set<N>)
    requires Good(h) && Detached(h, held) && Listed(h, list)
    ensures !SweepFastWaits(h, list, 0, held)
  {
    SweepFastWaitsIff(h, h, list, 0, held);
    FastVictimsAreUnreachable(h, list, 0);
    DestroyedIsUnreachable(h);
    DetachedIsUnsnagged(h, FastVictims(h, list, 0), h.destroyed + held, held);
  }

  lemma OrderlyFastReturns<N>(h: Heap<N>, list: seq<N>, held: set<N>)
    requires Shaped(h) && Balanced(h) && Listed(h, list)
    ensures Orderly(h, held) ==> !SweepFastWaits(h, list, 0, held)
  {
    hide SweepFastWaits, Detached, NoLiveCycle, FlagsSound;
    if Orderly(h, held) {
      DetachedFastReturns(h, list, held);
    }
  }

  lemma OrderlySlowReturns<N>(h: Heap<N>, list: seq<N>, held: set<N>, locks: nat -> bool, clock: nat)
    requires Shaped(h) && Balanced(h) && Listed(h, list)
    ensures Orderly(h, held) ==> !SweepSlowWaits(h, list, 0, held, locks, clock)
  {
    hide SweepSlowWaits, Detached, NoLiveCycle, FlagsSound;
    if Orderly(h, held) {
      DetachedSlowReturns(h, list, held, locks, clock);
    }
  }

  // ---------------------------------------------------------------- one page after the other

  /** What lies on the pages: no object twice, and on one page only. */
  ghost predicate Spread<N>(h: Heap<N>, lists: seq<seq<N>>) {
    && (forall i :: 0 <= i < |lists| ==> Distinct(lists[i]) && forall n :: n in lists[i] ==> n in h.refs && n in h.fields)
    && (forall i, j, n :: 0 <= i < |lists| && 0 <= j < |lists| && n in lists[i] && n in lists[j] ==> i == j)
  }

  /** The first `i` pages have been collected, with all locks free and without waiting for one forever. */
  ghost predicate Sweeping<N>(h0: Heap<N>, h: Heap<N>, lists: seq<seq<N>>, i: nat, held: set<N>)
    requires Good(h0) && Spread(h0, lists)
  {
    && i <= |lists| && Collectable(h) && SameLive(h0, h)
    && h.destroyed == h0.destroyed + Unreachable(h0, lists, i)
    && (forall j :: i <= j < |lists| ==> SameFields(h0, h, lists[j]))
    && !Snagged(h0, GarbageOf(h0, lists, i), h0.destroyed + held)
  }

  /** The unreachable objects of the first `i` pages, in order. */
  ghost function GarbageOf<N>(h: Heap<N>, lists: seq<seq<N>>, i: nat): seq<N>
    requires Shaped(h) && Spread(h, lists) && i <= |lists|
  {
    if i == 0 then [] else GarbageOf(h, lists, i - 1) + Garbage(h, lists[i - 1])
  }

  ghost function Unreachable<N>(h: Heap<N>, lists: seq<seq<N>>, i: nat): set<N>
    requires Shaped(h) && Spread(h, lists) && i <= |lists|
  {
    set n | n in GarbageOf(h, lists, i)
  }

  lemma {:induction false} SnaggedSplit<N>(h: Heap<N>, a: seq<N>, b: seq<N>, kept: set<N>)
    ensures Snagged(h, a + b, kept) <==> Snagged(h, a, kept) || Snagged(h, b, kept + set n | n in a)
  {
    hide Snag;
    if a == [] {
      assert a + b == b && kept + (set n | n in a) == kept;
    } else {
      SnaggedSplit(h, a[1..], b, kept + {a[0]});
      assert (a + b)[1..] == a[1..] + b;
      assert kept + {a[0]} + (set n | n in a[1..]) == kept + set n | n in a;
    }
  }

  /** If no lock is refused a pass destroys just the unreachable objects of its page. */
  lemma {:induction false} VictimsAreDestroyed<N>(h: Heap<N>, list: seq<N>, locks: nat -> bool, clock: nat)
    requires Shaped(h) && Balanced(h) && forall i :: 0 <= i < |list| ==> list[i] in h.refs
    ensures CollectList(h, list, locks, clock).heap.destroyed == h.destroyed + set n | n in Victims(h, list, locks, clock)
    ensures var r := CollectList(h, list, locks, clock).heap;
            && r.fields.Keys == h.fields.Keys && r.uninitialized == h.uninitialized
            && forall n :: n in h.fields && n !in list ==> r.fields[n] == h.fields[n]
    decreases |list|
  {
    hide Shaped, Balanced, Inspect, Targets;
    if list != [] {
      InspectAccounts(h, list[0], locks, clock);
      InspectKeepsOthers(h, list[0], locks, clock);
      var first := Inspect(h, list[0], locks, clock);
      VictimsAreDestroyed(first.heap, list[1..], locks, first.clock);
      assert forall n :: n in list <==> n == list[0] || n in list[1..];
    }
  }

  /** The next page: whether the pass over it waits forever, and what it leaves. */
  lemma SweepingStep<N>(h0: Heap<N>, h: Heap<N>, lists: seq<seq<N>>, i: nat, held: set<N>, locks: nat -> bool, clock: nat)
    requires Good(h0) && Spread(h0, lists) && Sweeping(h0, h, lists, i, held) && i < |lists| && forall t :: locks(t)
    ensures Shaped(h) && Balanced(h) && forall k :: 0 <= k < |lists[i]| ==> lists[i][k] in h.refs
    ensures PassWaits(h, lists[i], held, locks, clock) <==> Snagged(h0, GarbageOf(h0, lists, i + 1), h0.destroyed + held)
    ensures !PassWaits(h, lists[i], held, locks, clock) ==>
              var r := CollectList(h, lists[i], locks, clock);
              Sweeping(h0, r.heap, lists, i + 1, held) && r.survivors == LiveOnes(h0, lists[i])
  {
    hide Shaped, Balanced, FlagsSound, NoLiveCycle, Live, PassWaits, Snag;
    var list := lists[i];
    assert forall k :: 0 <= k < |list| ==> list[k] in list;
    assert SameFields(h0, h, list);
    PassWaitsIff(h0, h, list, held, locks, clock);
    VictimsAreGarbage(h, list, locks, clock);
    SameGarbage(h0, h, list);
    SnaggedSplit(h0, GarbageOf(h0, lists, i), Garbage(h0, list), h0.destroyed + held);
    assert h.destroyed + held == h0.destroyed + held + Unreachable(h0, lists, i);
    SweepingOn(h0, h, lists, i, held, locks, clock);
  }

  lemma SweepingOn<N>(h0: Heap<N>, h: Heap<N>, lists: seq<seq<N>>, i: nat, held: set<N>, locks: nat -> bool, clock: nat)
    requires Good(h0) && Spread(h0, lists) && Sweeping(h0, h, lists, i, held) && i < |lists| && forall t :: locks(t)
    requires Shaped(h) && Balanced(h) && forall k :: 0 <= k < |lists[i]| ==> lists[i][k] in h.refs
    ensures var r := CollectList(h, lists[i], locks, clock);
            && Collectable(r.heap) && SameLive(h0, r.heap) && r.survivors == LiveOnes(h0, lists[i])
            && r.heap.destroyed == h0.destroyed + Unreachable(h0, lists, i + 1)
            && forall j :: i + 1 <= j < |lists| ==> SameFields(h0, r.heap, lists[j])
  {
    hide Shaped, Balanced, FlagsSound, NoLiveCycle, Live, Snagged, CollectList, SameFields, LiveOnes, Garbage, Distinct, Victims;
    var list := lists[i];
    var r := CollectList(h, list, locks, clock);
    SameLiveOnes(h0, h, list);
    CollectListIsSafe(h, list, locks, clock);
    CollectListIsComplete(h, list, locks, clock);
    VictimsAreDestroyed(h, list, locks, clock);
    VictimsAreGarbage(h, list, locks, clock);
    SameGarbage(h0, h, list);
    UnreachableGrows(h0, lists, i);
    OthersSame(h0, h, r.heap, lists, i);
  }

  lemma UnreachableGrows<N>(h: Heap<N>, lists: seq<seq<N>>, i: nat)
    requires Shaped(h) && Spread(h, lists) && i < |lists|
    ensures Unreachable(h, lists, i + 1) == Unreachable(h, lists, i) + set n | n in Garbage(h, lists[i])
  {
    hide Shaped, Garbage, Spread;
  }

  lemma OthersSame<N>(h0: Heap<N>, h: Heap<N>, h': Heap<N>, lists: seq<seq<N>>, i: nat)
    requires Spread(h0, lists) && i < |lists| && forall j :: i <= j < |lists| ==> SameFields(h0, h, lists[j])
    requires h'.fields.Keys == h.fields.Keys && h'.uninitialized == h.uninitialized
    requires forall n :: n in h.fields && n !in lists[i] ==> h'.fields[n] == h.fields[n]
    ensures forall j :: i + 1 <= j < |lists| ==> SameFields(h0, h', lists[j])
  {
    forall j | i + 1 <= j < |lists| ensures SameFields(h0, h', lists[j]) {
      assert SameFields(h0, h, lists[j]);
      assert forall n :: n in lists[j] ==> n !in lists[i];
    }
  }

  lemma SweepingStarts<N>(h: Heap<N>, lists: seq<seq<N>>, held: set<N>)
    requires Collectable(h) && Spread(h, lists)
    ensures Sweeping(h, h, lists, 0, held)
  {
    hide Shaped, Balanced, FlagsSound, NoLiveCycle, Live;
  }

  /** What lies on the pages after the first `i` have been collected. */
  ghost function Swept<N>(h: Heap<N>, lists: seq<seq<N>>, i: nat): (r: seq<seq<N>>)
    requires Shaped(h) && Spread(h, lists)
    ensures |r| == |lists|
  {
    seq(|lists|, k requires 0 <= k < |lists| => if k < i then LiveOnes(h, lists[k]) else lists[k])
  }

  lemma SweptNext<N>(h: Heap<N>, lists: seq<seq<N>>, i: nat)
    requires Shaped(h) && Spread(h, lists) && i < |lists|
    ensures forall k :: 0 <= k < |lists[i]| ==> lists[i][k] in h.refs
    ensures Swept(h, lists, i + 1) == Swept(h, lists, i)[i := LiveOnes(h, lists[i])]
  {
    hide Shaped, LiveOnes;
    assert forall k :: 0 <= k < |lists[i]| ==> lists[i][k] in lists[i];
  }

  ghost predicate Free(locks: nat -> bool) {
    forall t :: locks(t)
  }

  /** Where `Collect` is before page `i`, if no lock is refused and no live cycle exists. */
  ghost predicate Cleaned<N>(h0: Heap<N>, lists0: seq<seq<N>>, h: Heap<N>, lists: seq<seq<N>>, i: nat, held: set<N>, locks: nat -> bool)
    requires Shaped(h0) && Spread(h0, lists0)
  {
    Collectable(h0) && Free(locks) ==> Sweeping(h0, h, lists0, i, held) && lists == Swept(h0, lists0, i)
  }

  /** Whether `Collect` waits forever for a lock on one of the first `i` pages, under the same conditions. */
  ghost predicate WaitsOn<N>(h0: Heap<N>, lists0: seq<seq<N>>, i: nat, held: set<N>, locks: nat -> bool, never: bool)
    requires Shaped(h0) && Spread(h0, lists0)
  {
    Collectable(h0) && Free(locks) && i <= |lists0| ==> (never <==> Snagged(h0, GarbageOf(h0, lists0, i), h0.destroyed + held))
  }

  lemma CleanedAtStart<N>(h: Heap<N>, lists: seq<seq<N>>, held: set<N>, locks: nat -> bool)
    requires Shaped(h) && Spread(h, lists)
    ensures Cleaned(h, lists, h, lists, 0, held, locks)
  {
    hide Shaped, Balanced, FlagsSound, NoLiveCycle, Sweeping, Spread;
    if Collectable(h) {
      SweepingStarts(h, lists, held);
      assert Swept(h, lists, 0) == lists;
    }
  }

  lemma CleanedNext<N>(h0: Heap<N>, lists0: seq<seq<N>>, h: Heap<N>, lists: seq<seq<N>>, i: nat, held: set<N>, locks: nat -> bool, clock: nat)
    requires Shaped(h0) && Spread(h0, lists0) && Cleaned(h0, lists0, h, lists, i, held, locks) && i < |lists| == |lists0|
    requires Shaped(h) && Balanced(h) && forall k :: 0 <= k < |lists[i]| ==> lists[i][k] in h.refs
    ensures PassWaits(h, lists[i], held, locks, clock) ==> forall n :: i < n <= |lists| ==> WaitsOn(h0, lists0, n, held, locks, true)
    ensures !PassWaits(h, lists[i], held, locks, clock) ==>
              var r := CollectList(h, lists[i], locks, clock);
              Cleaned(h0, lists0, r.heap, lists[i := r.survivors], i + 1, held, locks)
  {
    hide Shaped, Balanced, FlagsSound, NoLiveCycle, Sweeping, Spread, PassWaits, CollectList, Snagged, LiveOnes, GarbageOf;
    if Collectable(h0) && Free(locks) {
      assert lists[i] == lists0[i];
      SweepingStep(h0, h, lists0, i, held, locks, clock);
      if PassWaits(h, lists[i], held, locks, clock) {
        forall n | i < n <= |lists| ensures WaitsOn(h0, lists0, n, held, locks, true) {
          SnaggedStays(h0, lists0, i + 1, n, held);
        }
      } else {
        SweptNext(h0, lists0, i);
      }
    }
  }

  /** After pages that were collected there has been no waiting. */
  lemma CleanedDidNotWait<N>(h0: Heap<N>, lists0: seq<seq<N>>, h: Heap<N>, lists: seq<seq<N>>, i: nat, held: set<N>, locks: nat -> bool)
    requires Shaped(h0) && Spread(h0, lists0) && Cleaned(h0, lists0, h, lists, i, held, locks)
    ensures WaitsOn(h0, lists0, i, held, locks, false)
  {
    hide Shaped, Balanced, FlagsSound, NoLiveCycle, Spread, Snagged;
  }

  lemma CleanedAtEnd<N>(h0: Heap<N>, lists0: seq<seq<N>>, h: Heap<N>, lists: seq<seq<N>>, i: nat, held: set<N>, locks: nat -> bool)
    requires Shaped(h0) && Spread(h0, lists0) && Cleaned(h0, lists0, h, lists, i, held, locks)
    ensures Collectable(h0) && Free(locks) ==> lists == Swept(h0, lists0, i)
  {
    hide Collectable, Shaped, Spread, Swept, Sweeping;
  }

  /** Once the pass over one page waits forever, the pages behind it do not matter. */
  lemma {:induction false} SnaggedStays<N>(h: Heap<N>, lists: seq<seq<N>>, i: nat, j: nat, held: set<N>)
    requires Shaped(h) && Spread(h, lists) && i <= j <= |lists| && Snagged(h, GarbageOf(h, lists, i), h.destroyed + held)
    ensures Snagged(h, GarbageOf(h, lists, j), h.destroyed + held)
    decreases j
  {
    hide Shaped, Snagged, Garbage;
    if i < j {
      SnaggedStays(h, lists, i, j - 1, held);
      SnaggedSplit(h, GarbageOf(h, lists, j - 1), Garbage(h, lists[j - 1]), h.destroyed + held);
    }
  }
}
