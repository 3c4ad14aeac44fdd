/**
 Collection passes over a list of objects, as functions on heaps, and what they reclaim.

 The environment answers every attempt to take a lock: `locks(t)` is the outcome of the
 `t`-th attempt. A refused lock means that the object is treated as alive.
 */
module Collection {
  import opened References
  import opened Objects
  import opened Vectors

  /** The heap and the lock attempts so far, and whether the object is dead. */
  datatype Inspection<N> = Inspection(heap: Heap<N>, dead: bool, clock: nat)

  /** Whether the collection loop takes the object `n` for dead. */
  function Judge<N(==)>(h: Heap<N>, n: N, locks: nat -> bool, clock: nat): (r: Inspection<N>)
    requires Shaped(h) && Balanced(h) && n in h.refs
    ensures Shaped(r.heap) && Balanced(r.heap) && r.heap.refs.Keys == h.refs.Keys
  {
    if h.roots[n] > 0 then Inspection(h, false, clock)
    else if !locks(clock) then Inspection(h, false, clock + 1)
    else if !locks(clock + 1) then Inspection(h, false, clock + 2)
    else if n in h.flagged then Inspection(h, true, clock + 2)
    else
      var o := Search(GraphOf(h), h.flagged, {}, n, locks, clock + 2);
      var searched := h.(flagged := o.flagged);
      SearchGrows(GraphOf(h), h.flagged, {}, n, locks, clock + 2);
      assert GraphOf(searched) == GraphOf(h);
      FlagsDoNotBalance(h, searched);
      Inspection(searched, !o.found, o.clock)
  }

  /** One turn of the collection loop: what happens to the object `n`. */
  function Inspect<N(==)>(h: Heap<N>, n: N, locks: nat -> bool, clock: nat): (r: Inspection<N>)
    requires Shaped(h) && Balanced(h) && n in h.refs
    ensures Shaped(r.heap) && Balanced(r.heap) && r.heap.refs.Keys == h.refs.Keys
  {
    var j := Judge(h, n, locks, clock);
    if j.dead then j.(heap := Destroy(j.heap, n)) else j
  }

  datatype Pass<N> = Pass(heap: Heap<N>, survivors: seq<N>, clock: nat)

  /** A pass over the objects of one page, in the order of its allocations. */
  function CollectList<N(==)>(h: Heap<N>, list: seq<N>, locks: nat -> bool, clock: nat): (r: Pass<N>)
    requires Shaped(h) && Balanced(h) && forall i :: 0 <= i < |list| ==> list[i] in h.refs
    ensures Shaped(r.heap) && Balanced(r.heap) && r.heap.refs.Keys == h.refs.Keys
    decreases |list|
  {
    if list == [] then Pass(h, [], clock)
    else
      var first := Inspect(h, list[0], locks, clock);
      var rest := CollectList(first.heap, list[1..], locks, first.clock);
      Pass(rest.heap, (if first.dead then [] else [list[0]]) + rest.survivors, rest.clock)
  }

  /**
   Where a pass in place is: the objects before index `i` have survived, those from `i` on are
   still to be inspected, and finishing from here gives `all`.
   */
  ghost predicate Underway<N>(all: Pass<N>, h: Heap<N>, on: seq<N>, i: nat, locks: nat -> bool, clock: nat)
    requires Shaped(h) && Balanced(h) && (forall k :: 0 <= k < |on| ==> on[k] in h.refs) && i <= |on|
  {
    var rest := CollectList(h, on[i..], locks, clock);
    all == Pass(rest.heap, on[..i] + rest.survivors, rest.clock)
  }

  lemma {:induction false} PassStarts<N>(h: Heap<N>, on: seq<N>, locks: nat -> bool, clock: nat)
    requires Shaped(h) && Balanced(h) && forall k :: 0 <= k < |on| ==> on[k] in h.refs
    ensures Underway(CollectList(h, on, locks, clock), h, on, 0, locks, clock)
  {
    assert on[0..] == on;
  }

  /** When an object is destroyed, the index stays where it is and the next object moves there. */
  lemma {:induction false} PassContinues<N>(all: Pass<N>, h: Heap<N>, on: seq<N>, i: nat, locks: nat -> bool, clock: nat)
    requires Shaped(h) && Balanced(h) && (forall k :: 0 <= k < |on| ==> on[k] in h.refs) && i < |on|
    requires Underway(all, h, on, i, locks, clock)
    ensures var first := Inspect(h, on[i], locks, clock);
            if first.dead then Underway(all, first.heap, on[..i] + on[i + 1..], i, locks, first.clock)
            else Underway(all, first.heap, on, i + 1, locks, first.clock)
  {
    hide Shaped, Balanced, Inspect;
    assert on[i..][0] == on[i] && on[i..][1..] == on[i + 1..];
    var first, erased := Inspect(h, on[i], locks, clock), on[..i] + on[i + 1..];
    if first.dead {
      assert erased[..i] == on[..i] && erased[i..] == on[i + 1..];
    } else {
      assert on[..i + 1] == on[..i] + [on[i]];
    }
  }

  lemma {:induction false} PassEnds<N>(all: Pass<N>, h: Heap<N>, on: seq<N>, locks: nat -> bool, clock: nat)
    requires Shaped(h) && Balanced(h) && (forall k :: 0 <= k < |on| ==> on[k] in h.refs)
    requires Underway(all, h, on, |on|, locks, clock)
    ensures all == Pass(h, on, clock)
  {
  }

  // ---------------------------------------------------------------- what destroying leaves alone

  /** `g'` has the edges of `g` but those that start at `n`. */
  ghost predicate WithoutEdgesFrom<N>(g: Graph<N>, g': Graph<N>, n: N) {
    && g'.refs.Keys == g.refs.Keys && g'.roots == g.roots
    && forall d, s :: d in g.refs && s in g.refs ==> (s in g'.refs[d] <==> s in g.refs[d] && s != n)
  }

  /** Edges that start at garbage carry no reachability, and dropping edges ties no new knot. */
  lemma GarbageEdgesDoNotMatter<N>(g: Graph<N>, g': Graph<N>, n: N)
    requires WellFormed(g) && WellFormed(g') && WithoutEdgesFrom(g, g', n) && n in g.refs && !Reachable(g, n)
    ensures forall m :: m in g.refs ==> (Reachable(g', m) <==> Reachable(g, m))
    ensures NoLiveCycle(g) ==> NoLiveCycle(g')
  {
    RootsAreReachable(g);
    RootsAreReachable(g');
    ReachableShrinks(g, g');
    forall m, i | m in g.refs && 0 <= i < |g.refs[m]|
      ensures g.refs[m][i] in g'.refs[m] || !Reachable(g, g.refs[m][i])
    {
      assert g.refs[m][i] in g.refs[m];
    }
    ReachableShrinks(g', g);
    if NoLiveCycle(g) {
      KnotsPersist(g, g');
    }
  }

  lemma KnotsPersist<N>(g: Graph<N>, g': Graph<N>)
    requires WellFormed(g) && WellFormed(g') && g'.refs.Keys == g.refs.Keys && g'.roots == g.roots && NoLiveCycle(g)
    requires forall d, s :: d in g.refs && s in g.refs && s in g'.refs[d] ==> s in g.refs[d]
    requires forall m :: m in g.refs && Reachable(g', m) ==> Reachable(g, m)
    ensures NoLiveCycle(g')
  {
    forall knot | knot <= g'.refs.Keys && Knot(g', knot) ensures false {
      forall n | n in knot ensures HeldBy(g, n, knot) {
        assert HeldBy(g', n, knot);
        var j :| 0 <= j < |g'.refs[n]| && g'.refs[n][j] in knot;
        assert g'.refs[n][j] in g.refs[n];
      }
      assert Knot(g, knot);
    }
  }

  /** The collector's standing assumption about a heap, and what a pass promises. */
  ghost predicate Collectable<N>(h: Heap<N>) {
    Good(h) && NoLiveCycle(GraphOf(h))
  }

  /** What initialized garbage holds. */
  ghost function HeldByGarbage<N>(h: Heap<N>): set<N>
    requires Shaped(h)
  {
    set n, t | n in h.refs && n !in h.uninitialized && !Live(h, n) && t in Targets(h, n, 0) :: t
  }

  /** Initialized garbage holds neither garbage nor an object in `held`, of which the calling thread has the lock. */
  ghost predicate Detached<N>(h: Heap<N>, held: set<N>)
    requires Shaped(h)
  {
    forall t :: t in HeldByGarbage(h) ==> t in h.refs && Live(h, t) && t !in held
  }

  ghost predicate SameLive<N>(h: Heap<N>, h': Heap<N>)
    requires Shaped(h) && Shaped(h')
  {
    h'.refs.Keys == h.refs.Keys && forall m :: m in h.refs ==> (Live(h', m) <==> Live(h, m))
  }

  lemma DestroyDropsEdges<N>(h: Heap<N>, n: N)
    requires Shaped(h) && Balanced(h) && n in h.refs && n !in h.uninitialized
    ensures WithoutEdgesFrom(GraphOf(h), GraphOf(Destroy(h, n)), n)
  {
    DestroyEffect(h, n);
    var h' := Destroy(h, n);
    forall d, s | d in h.refs && s in h.refs ensures s in h'.refs[d] <==> s in h.refs[d] && s != n {
      if s != n {
        assert RefCount(h', d, s) == RefCount(h, d, s);
      }
    }
  }

  lemma DestroyingGarbage<N>(h: Heap<N>, n: N)
    requires Good(h) && n in h.refs && !Live(h, n)
    ensures var h' := Destroy(h, n);
            && Good(h') && SameLive(h, h') && (NoLiveCycle(GraphOf(h)) ==> NoLiveCycle(GraphOf(h')))
            && h'.destroyed == h.destroyed + {n} && h.flagged <= h'.flagged && n in h'.flagged
  {
    var h' := Destroy(h, n);
    if n in h.uninitialized {
      assert GraphOf(h') == GraphOf(h);
    } else {
      DestroyEffect(h, n);
      DestroyDropsEdges(h, n);
      GarbageEdgesDoNotMatter(GraphOf(h), GraphOf(h'), n);
      ForgottenIsGarbage(h');
    }
  }

  // ---------------------------------------------------------------- one object

  /** A search that answers "no root" marks nothing reachable; with no live cycle, no search does. */
  lemma SearchingIsSafe<N>(h: Heap<N>, n: N, locks: nat -> bool, clock: nat)
    requires Good(h) && n in h.refs
    ensures var o := Search(GraphOf(h), h.flagged, {}, n, locks, clock);
            && (!o.found ==> !Live(h, n))
            && ((forall t :: locks(t)) && o.found ==> Live(h, n))
            && h.flagged <= o.flagged <= h.refs.Keys
            && (!o.found || NoLiveCycle(GraphOf(h)) ==> Sound(GraphOf(h), o.flagged))
  {
    var g := GraphOf(h);
    var o := Search(g, h.flagged, {}, n, locks, clock);
    SearchGrows(g, h.flagged, {}, n, locks, clock);
    NegativeAnswerIsSound(g, h.flagged, n, locks, clock);
    if NoLiveCycle(g) {
      SearchKeepsFlagsSound(g, h.flagged, {}, n, locks, clock);
    }
    if (forall t :: locks(t)) && o.found {
      SearchIsExact(g, h.flagged, n, locks, clock);
      var steps: nat :| RootedWithin(g, h.flagged, n, steps);
      AvoidLess(g, h.flagged, {}, n, steps);
    }
  }

  /**
   Inspecting an object destroys it only if it is unreachable, and if all locks are free also
   whenever it is; what is reachable stays the same. Without the assumption about cycles this
   still holds when the object was flagged or the search found no root.
   */
  lemma InspectIsExact<N>(h: Heap<N>, n: N, locks: nat -> bool, clock: nat)
    requires Good(h) && n in h.refs
    requires NoLiveCycle(GraphOf(h)) || n in h.flagged || !Search(GraphOf(h), h.flagged, {}, n, locks, clock + 2).found
    ensures var r := Inspect(h, n, locks, clock);
            && Good(r.heap) && SameLive(h, r.heap) && (NoLiveCycle(GraphOf(h)) ==> NoLiveCycle(GraphOf(r.heap)))
            && (r.dead ==> !Live(h, n))
            && ((forall t :: locks(t)) && !Live(h, n) ==> r.dead)
            && r.heap.destroyed == h.destroyed + (if r.dead then {n} else {})
            && h.flagged <= r.heap.flagged
  {
    RootsAreReachable(GraphOf(h));
    if h.roots[n] == 0 && locks(clock) && locks(clock + 1) {
      if n in h.flagged {
        DestroyingGarbage(h, n);
      } else {
        SearchingIsSafe(h, n, locks, clock + 2);
        var searched := h.(flagged := Search(GraphOf(h), h.flagged, {}, n, locks, clock + 2).flagged);
        assert GraphOf(searched) == GraphOf(h);
        FlagsDoNotBalance(h, searched);
        if !Search(GraphOf(h), h.flagged, {}, n, locks, clock + 2).found {
          DestroyingGarbage(searched, n);
        }
      }
    }
  }

  lemma JudgeAccounts<N>(h: Heap<N>, n: N, locks: nat -> bool, clock: nat)
    requires Shaped(h) && Balanced(h) && n in h.refs
    ensures var r := Judge(h, n, locks, clock);
            r.heap == h.(flagged := r.heap.flagged) && h.flagged <= r.heap.flagged
  {
    SearchGrows(GraphOf(h), h.flagged, {}, n, locks, clock + 2);
  }

  lemma InspectAccounts<N>(h: Heap<N>, n: N, locks: nat -> bool, clock: nat)
    requires Shaped(h) && Balanced(h) && n in h.refs
    ensures var r := Inspect(h, n, locks, clock);
            && r.heap.destroyed == h.destroyed + (if r.dead then {n} else {})
            && h.flagged <= r.heap.flagged && r.heap.roots == h.roots
  {
    JudgeAccounts(h, n, locks, clock);
    DestroyAccounts(Judge(h, n, locks, clock).heap, n);
  }

  lemma DestroyAccounts<N>(h: Heap<N>, n: N)
    requires Shaped(h) && Balanced(h) && n in h.refs
    ensures var h' := Destroy(h, n);
            h'.destroyed == h.destroyed + {n} && h.flagged + {n} <= h'.flagged && h'.roots == h.roots
  {
    if n !in h.uninitialized {
      DestroyEffect(h, n);
    }
  }

  /** Tombstones stay, no field gains a value, and new objects are uninitialized and hold nothing. */
  ghost predicate FewerTargets<N>(h: Heap<N>, h': Heap<N>) {
    && h.fields.Keys <= h'.fields.Keys && h.destroyed <= h'.destroyed
    && (forall n :: n in h.fields ==>
          |h'.fields[n]| == |h.fields[n]| && Targets(h', n, 0) <= Targets(h, n, 0) && (n in h'.uninitialized <==> n in h.uninitialized))
    && (forall n :: n in h'.fields && n !in h.fields ==> n in h'.uninitialized && Targets(h', n, 0) == {})
  }

  lemma DestroyKeepsOthers<N>(h: Heap<N>, n: N)
    requires Shaped(h) && Balanced(h) && n in h.refs
    ensures var h' := Destroy(h, n);
            && h'.fields.Keys == h.fields.Keys && h'.uninitialized == h.uninitialized
            && (forall m :: m in h.fields && m != n ==> h'.fields[m] == h.fields[m])
            && FewerTargets(h, h')
  {
    if n !in h.uninitialized {
      DestroyEffect(h, n);
    }
    forall m | m in h.fields ensures Targets(Destroy(h, n), m, 0) <= Targets(h, m, 0) {
    }
  }

  lemma InspectKeepsOthers<N>(h: Heap<N>, n: N, locks: nat -> bool, clock: nat)
    requires Shaped(h) && Balanced(h) && n in h.refs
    ensures var r := Inspect(h, n, locks, clock);
            && r.heap.fields.Keys == h.fields.Keys && r.heap.uninitialized == h.uninitialized
            && (forall m :: m in h.fields && (m != n || !r.dead) ==> r.heap.fields[m] == h.fields[m])
            && FewerTargets(h, r.heap)
  {
    hide Balanced, Destroy, WellFormed;
    JudgeAccounts(h, n, locks, clock);
    var j := Judge(h, n, locks, clock);
    assert forall m :: m in h.fields ==> Targets(j.heap, m, 0) == Targets(h, m, 0);
    if j.dead {
      DestroyKeepsOthers(j.heap, n);
    }
  }

  lemma SameTargets<N>(h: Heap<N>)
    ensures FewerTargets(h, h)
  {
  }

  lemma NewcomerHasNoTargets<N>(h: Heap<N>, n: N, fieldCount: nat)
    requires Shaped(h) && n !in h.refs
    ensures FewerTargets(h, Register(h, n, fieldCount))
  {
    var h' := Register(h, n, fieldCount);
    forall m | m in h.fields ensures Targets(h', m, 0) == Targets(h, m, 0) {
      assert h'.fields[m] == h.fields[m];
    }
    assert Targets(h', n, 0) == {};
  }

  /** Objects that are not destroyed have nothing to lose by relocation. */
  ghost predicate Sturdy<N>(h: Heap<N>, failed: set<N>) {
    forall n :: n in h.fields && n !in h.destroyed ==> !Fragile(h, failed, n)
  }

  lemma SturdyStays<N>(h: Heap<N>, h': Heap<N>, failed: set<N>)
    requires FewerTargets(h, h') && Sturdy(h, failed)
    ensures Sturdy(h', failed)
  {
    hide Targets;
  }

  lemma FewerStill<N>(h: Heap<N>, h': Heap<N>, h'': Heap<N>)
    requires FewerTargets(h, h') && FewerTargets(h', h'')
    ensures FewerTargets(h, h'')
  {
    hide Targets;
  }

  lemma GarbageHoldsLess<N>(h: Heap<N>, h': Heap<N>)
    requires Shaped(h) && Shaped(h') && SameLive(h, h') && FewerTargets(h, h')
    ensures HeldByGarbage(h') <= HeldByGarbage(h)
  {
    hide Targets, Live, WellFormed;
  }

  lemma DestroyKeepsShape<N>(h: Heap<N>, n: N)
    requires Shaped(h) && Balanced(h) && n in h.refs
    ensures Shaped(Destroy(h, n)) && Balanced(Destroy(h, n))
  {
  }

  // ---------------------------------------------------------------- locks that are refused

  /**
   Only an object without root handles of which both locks were had is destroyed. If one of them is
   refused, or it has a root handle, nothing happens but the attempts; if both are had, a flagged
   object is destroyed.
   */
  lemma InspectHeedsLocks<N>(h: Heap<N>, n: N, locks: nat -> bool, clock: nat)
    requires Shaped(h) && Balanced(h) && n in h.refs
    ensures var r := Inspect(h, n, locks, clock);
            && (r.dead ==> h.roots[n] == 0 && locks(clock) && locks(clock + 1))
            && (h.roots[n] > 0 ==> r == Inspection(h, false, clock))
            && (h.roots[n] == 0 && !locks(clock) ==> r == Inspection(h, false, clock + 1))
            && (h.roots[n] == 0 && locks(clock) && !locks(clock + 1) ==> r == Inspection(h, false, clock + 2))
            && (h.roots[n] == 0 && locks(clock) && locks(clock + 1) ==>
                  clock + 2 <= r.clock && (n in h.flagged ==> r.dead && r.clock == clock + 2))
  {
    if h.roots[n] == 0 && locks(clock) && locks(clock + 1) && n !in h.flagged {
      SearchGrows(GraphOf(h), h.flagged, {}, n, locks, clock + 2);
    }
  }

  /** If every lock is refused a pass changes nothing. */
  lemma {:induction false} RefusedPassChangesNothing<N>(h: Heap<N>, list: seq<N>, locks: nat -> bool, clock: nat)
    requires Shaped(h) && Balanced(h) && (forall i :: 0 <= i < |list| ==> list[i] in h.refs) && forall t :: !locks(t)
    ensures var r := CollectList(h, list, locks, clock); r.heap == h && r.survivors == list
    decreases |list|
  {
    hide Balanced, WellFormed, Inspect;
    if list != [] {
      InspectHeedsLocks(h, list[0], locks, clock);
      RefusedPassChangesNothing(h, list[1..], locks, Inspect(h, list[0], locks, clock).clock);
    }
  }

  /** A pass over a list is a pass over its first part and then one over the rest. */
  lemma {:induction false} PassSplits<N>(h: Heap<N>, list: seq<N>, i: nat, locks: nat -> bool, clock: nat)
    requires Shaped(h) && Balanced(h) && (forall k :: 0 <= k < |list| ==> list[k] in h.refs) && i <= |list|
    ensures var first := CollectList(h, list[..i], locks, clock);
            && (forall k :: 0 <= k < |list[i..]| ==> list[i..][k] in first.heap.refs)
            && var rest := CollectList(first.heap, list[i..], locks, first.clock);
               CollectList(h, list, locks, clock) == Pass(rest.heap, first.survivors + rest.survivors, rest.clock)
    decreases i
  {
    hide Shaped, Balanced, Inspect;
    if i == 0 {
      assert list[..0] == [] && list[0..] == list;
    } else {
      var turn := Inspect(h, list[0], locks, clock);
      PassSplits(turn.heap, list[1..], i - 1, locks, turn.clock);
      assert list[..i][0] == list[0] && list[..i][1..] == list[1..][..i - 1] && list[i..] == list[1..][i - 1..];
      var inner := CollectList(turn.heap, list[1..][..i - 1], locks, turn.clock);
      var rest := CollectList(inner.heap, list[i..], locks, inner.clock);
      var one := if turn.dead then [] else [list[0]];
      assert one + (inner.survivors + rest.survivors) == (one + inner.survivors) + rest.survivors;
    }
  }

  lemma RefusedAtOnce<N>(h: Heap<N>, list: seq<N>, locks: nat -> bool, clock: nat)
    requires Shaped(h) && Balanced(h) && (forall k :: 0 <= k < |list| ==> list[k] in h.refs) && list != []
    requires !locks(clock) || !locks(clock + 1)
    ensures list[0] in CollectList(h, list, locks, clock).survivors
  {
    hide Balanced, WellFormed, Inspect;
    InspectHeedsLocks(h, list[0], locks, clock);
  }

  /** An object of which a lock is refused when its turn comes survives the pass. */
  lemma RefusedObjectSurvives<N>(h: Heap<N>, list: seq<N>, i: nat, locks: nat -> bool, clock: nat)
    requires Shaped(h) && Balanced(h) && (forall k :: 0 <= k < |list| ==> list[k] in h.refs) && i < |list|
    requires var turn := CollectList(h, list[..i], locks, clock).clock; !locks(turn) || !locks(turn + 1)
    ensures list[i] in CollectList(h, list, locks, clock).survivors
  {
    hide Shaped, Balanced, CollectList;
    PassSplits(h, list, i, locks, clock);
    var first := CollectList(h, list[..i], locks, clock);
    RefusedAtOnce(first.heap, list[i..], locks, first.clock);
  }

  // ---------------------------------------------------------------- a whole pass

  /** The reachable objects of a list, in order. */
  ghost function LiveOnes<N>(h: Heap<N>, list: seq<N>): seq<N>
    requires Shaped(h) && forall i :: 0 <= i < |list| ==> list[i] in h.refs
  {
    if list == [] then [] else (if Live(h, list[0]) then [list[0]] else []) + LiveOnes(h, list[1..])
  }

  lemma {:induction false} LiveOnesAre<N>(h: Heap<N>, list: seq<N>)
    requires Shaped(h) && forall i :: 0 <= i < |list| ==> list[i] in h.refs
    ensures forall n :: n in LiveOnes(h, list) <==> n in list && Live(h, n)
  {
    hide Shaped, Live;
    if list != [] {
      LiveOnesAre(h, list[1..]);
      assert forall n :: n in list <==> n == list[0] || n in list[1..];
    }
  }

  lemma {:induction false} SameLiveOnes<N>(h: Heap<N>, h': Heap<N>, list: seq<N>)
    requires Shaped(h) && Shaped(h') && SameLive(h, h') && forall i :: 0 <= i < |list| ==> list[i] in h.refs
    ensures LiveOnes(h', list) == LiveOnes(h, list)
  {
    if list != [] {
      SameLiveOnes(h, h', list[1..]);
    }
  }

  /**
   With no live cycle a pass keeps all flags sound, changes nothing about what is reachable and
   destroys only unreachable objects of the list, whichever locks are refused.
   */
  lemma {:induction false} CollectListIsSafe<N>(h: Heap<N>, list: seq<N>, locks: nat -> bool, clock: nat)
    requires Collectable(h) && forall i :: 0 <= i < |list| ==> list[i] in h.refs
    ensures var r := CollectList(h, list, locks, clock);
            && Collectable(r.heap) && SameLive(h, r.heap)
            && forall n :: n in r.heap.destroyed - h.destroyed ==> n in list && !Live(h, n)
    decreases |list|
  {
    hide Shaped, Balanced, FlagsSound, NoLiveCycle, Inspect, Live;
    if list != [] {
      InspectIsExact(h, list[0], locks, clock);
      var first := Inspect(h, list[0], locks, clock);
      CollectListIsSafe(first.heap, list[1..], locks, first.clock);
      var r := CollectList(h, list, locks, clock);
      forall n | n in r.heap.destroyed - h.destroyed ensures n in list && !Live(h, n) {
        assert n == list[0] || n in r.heap.destroyed - first.heap.destroyed;
      }
    }
  }

  /** If no lock is refused, exactly the reachable objects survive: cyclic garbage goes as well. */
  lemma {:induction false} CollectListIsComplete<N>(h: Heap<N>, list: seq<N>, locks: nat -> bool, clock: nat)
    requires Collectable(h) && forall i :: 0 <= i < |list| ==> list[i] in h.refs
    requires forall t :: locks(t)
    ensures CollectList(h, list, locks, clock).survivors == LiveOnes(h, list)
    decreases |list|
  {
    if list != [] {
      InspectIsExact(h, list[0], locks, clock);
      var first := Inspect(h, list[0], locks, clock);
      CollectListIsComplete(first.heap, list[1..], locks, first.clock);
      SameLiveOnes(h, first.heap, list[1..]);
    }
  }

  /**
   What every operation of the collector promises when no live cycle exists: nothing that was
   reachable becomes unreachable or the other way round, nothing reachable is destroyed, and
   garbage starts to hold nothing.
   */
  ghost predicate Harmless<N>(h: Heap<N>, h': Heap<N>) {
    Collectable(h) ==>
      && Collectable(h') && h.refs.Keys <= h'.refs.Keys && h.destroyed <= h'.destroyed
      && (forall n :: n in h.refs ==> (Live(h', n) <==> Live(h, n)))
      && (forall n :: n in h.refs && n in h'.destroyed && n !in h.destroyed ==> !Live(h, n))
      && HeldByGarbage(h') <= HeldByGarbage(h)
  }

  /** No live cycle, and no garbage that holds garbage or what the calling thread has pinned. */
  ghost predicate Orderly<N>(h: Heap<N>, held: set<N>) {
    Collectable(h) && Detached(h, held)
  }

  lemma OrderlyStays<N>(h: Heap<N>, h': Heap<N>, held: set<N>)
    requires Harmless(h, h')
    ensures Orderly(h, held) ==> Orderly(h', held)
  {
    hide FlagsSound, NoLiveCycle, Live, Balanced;
    if Orderly(h, held) {
      HeldIsKnown(h);
    }
  }

  lemma HeldIsKnown<N>(h: Heap<N>)
    requires Shaped(h)
    ensures HeldByGarbage(h) <= h.refs.Keys
  {
  }

  lemma StayingIsHarmless<N>(h: Heap<N>)
    ensures Harmless(h, h)
  {
  }

  lemma HarmlessSteps<N>(h: Heap<N>, h': Heap<N>, h'': Heap<N>)
    requires Harmless(h, h') && Harmless(h', h'')
    ensures Harmless(h, h'')
  {
    hide Good, NoLiveCycle, Live;
  }

  lemma PassIsHarmless<N>(h: Heap<N>, list: seq<N>, locks: nat -> bool, clock: nat)
    requires Shaped(h) && Balanced(h) && forall i :: 0 <= i < |list| ==> list[i] in h.refs
    ensures Harmless(h, CollectList(h, list, locks, clock).heap)
  {
    hide Good, NoLiveCycle, Live, CollectList;
    CollectListAccounts(h, list, locks, clock);
    if Collectable(h) {
      CollectListIsSafe(h, list, locks, clock);
      GarbageHoldsLess(h, CollectList(h, list, locks, clock).heap);
    }
  }

  lemma NewcomerHoldsNothing<N>(h: Heap<N>, n: N, fieldCount: nat)
    requires Good(h) && n !in h.refs
    ensures Shaped(Register(h, n, fieldCount)) && HeldByGarbage(Register(h, n, fieldCount)) <= HeldByGarbage(h)
  {
    RegisterKeepsGood(h, n, fieldCount);
    var h' := Register(h, n, fieldCount);
    forall m | m in h.refs ensures Targets(h', m, 0) == Targets(h, m, 0) {
      assert h'.fields[m] == h.fields[m];
    }
    assert Targets(h', n, 0) == {};
  }

  lemma RegisterIsHarmless<N>(h: Heap<N>, n: N, fieldCount: nat)
    requires Shaped(h) && Balanced(h) && n !in h.refs
    ensures Harmless(h, Register(h, n, fieldCount))
  {
    if Collectable(h) {
      RegisterKeepsGood(h, n, fieldCount);
      NewcomerHoldsNothing(h, n, fieldCount);
    }
  }

  /** Whatever the heap looks like, an object of the list is destroyed or survives. */
  lemma {:induction false} CollectListAccounts<N>(h: Heap<N>, list: seq<N>, locks: nat -> bool, clock: nat)
    requires Shaped(h) && Balanced(h) && forall i :: 0 <= i < |list| ==> list[i] in h.refs
    ensures var r := CollectList(h, list, locks, clock);
            && h.destroyed <= r.heap.destroyed && h.flagged <= r.heap.flagged && FewerTargets(h, r.heap)
            && forall n :: n in list ==> n in r.survivors || n in r.heap.destroyed
    decreases |list|
  {
    hide Shaped, Balanced, Inspect, Targets;
    if list != [] {
      InspectAccounts(h, list[0], locks, clock);
      var first := Inspect(h, list[0], locks, clock);
      CollectListAccounts(first.heap, list[1..], locks, first.clock);
      InspectKeepsOthers(h, list[0], locks, clock);
      FewerStill(h, first.heap, CollectList(h, list, locks, clock).heap);
    }
  }

  // ---------------------------------------------------------------- and no weaker condition will do

  /** The same heap with every `referencedBy` list in some other order. */
  ghost predicate Shuffled<N>(h: Heap<N>, h': Heap<N>) {
    h' == h.(refs := h'.refs) && Reordered(GraphOf(h), GraphOf(h'))
  }

  lemma ShuffledIsGood<N>(h: Heap<N>, h': Heap<N>)
    requires Good(h) && Shuffled(h, h')
    ensures Good(h') && SameLive(h, h')
  {
    var g, g' := GraphOf(h), GraphOf(h');
    ReorderedElements(g, g');
    ReorderedReaches(g, g');
    forall s, d | s in h'.refs && d in h'.refs ensures RefCount(h', d, s) == FieldCount(h', s, d) {
      assert multiset(g'.refs[d]) == multiset(g.refs[d]);
      assert RefCount(h, d, s) == FieldCount(h, s, d);
    }
  }

  /** A live object that is flagged while some object is inspected stays flagged, and the next pass over it destroys it. */
  lemma FlaggedIsLost<N>(h: Heap<N>, n: N, lost: N, locks: nat -> bool, clock: nat)
    requires Good(h) && n in h.refs && lost in h.refs && Live(h, n) && Live(h, lost) && h.roots[n] == 0 && h.roots[lost] == 0
    requires forall t :: locks(t)
    requires lost in Search(GraphOf(h), h.flagged, {}, n, locks, clock + 2).flagged
    ensures var first := CollectList(h, [n], locks, clock);
            && first.survivors == [n] && GraphOf(first.heap) == GraphOf(h) && first.heap.destroyed == h.destroyed
            && lost in first.heap.flagged && !FlagsSound(first.heap)
            && lost in CollectList(first.heap, [lost], locks, first.clock).heap.destroyed
    ensures var first := Inspect(h, n, locks, clock);
            !first.dead && lost in Inspect(first.heap, lost, locks, first.clock).heap.destroyed
  {
    SearchingIsSafe(h, n, locks, clock + 2);
    JudgeAccounts(h, n, locks, clock);
    var first := Inspect(h, n, locks, clock);
    assert !first.dead && lost in first.heap.flagged;
    assert GraphOf(first.heap) == GraphOf(h);
    InspectAccounts(first.heap, lost, locks, first.clock);
    var second := Inspect(first.heap, lost, locks, first.clock);
    assert second.dead;
    assert [n][1..] == [] && [lost][1..] == [];
    assert CollectList(first.heap, [lost], locks, first.clock).heap == second.heap;
    assert CollectList(h, [n], locks, clock) == Pass(first.heap, [n], first.clock);
  }

  lemma KnotMisleadsHeap<N>(h: Heap<N>, knot: set<N>, locks: nat -> bool, clock: nat) returns (h': Heap<N>, n: N, lost: N)
    requires Good(h) && Knot(GraphOf(h), knot) && forall t :: locks(t)
    ensures Shuffled(h, h') && Good(h') && n in h.refs && lost in h.refs
    ensures Live(h, n) && Live(h, lost) && n !in GraphOf(h).roots && lost !in GraphOf(h).roots
    ensures lost in Search(GraphOf(h'), h'.flagged, {}, n, locks, clock).flagged
  {
    var g := GraphOf(h);
    var g';
    g', n := KnotMisleads(g, knot, h.flagged, locks, clock);
    h' := h.(refs := g'.refs);
    assert GraphOf(h') == g';
    ShuffledIsGood(h, h');
    lost :| lost in Search(g', h.flagged, {}, n, locks, clock).flagged && lost in g'.refs && Reachable(g', lost);
    SearchGrows(g', h.flagged, {}, n, locks, clock);
  }

  /**
   If there is a knot, then for some order of the lists a pass over one object leaves a reachable
   object flagged, and a pass over that object destroys it.
   */
  lemma KnotLosesObject<N>(h: Heap<N>, knot: set<N>, locks: nat -> bool, clock: nat) returns (h': Heap<N>, n: N, lost: N)
    requires Good(h) && Knot(GraphOf(h), knot) && forall t :: locks(t)
    ensures Shuffled(h, h') && Good(h') && n in h'.refs && lost in h.refs && Live(h, lost) && lost !in h.destroyed
    ensures var first := CollectList(h', [n], locks, clock);
            && lost in first.heap.refs && lost !in first.heap.destroyed
            && lost in CollectList(first.heap, [lost], locks, first.clock).heap.destroyed
    ensures !PassSafe(h', [n], locks, clock)
  {
    hide Knot, Search, CollectList, Live;
    h', n, lost := KnotMisleadsHeap(h, knot, locks, clock + 2);
    ShuffledIsGood(h, h');
    FlaggedIsLost(h', n, lost, locks, clock);
    DestroyedIsUnreachable(h);
  }

  lemma DestroyedIsUnreachable<N>(h: Heap<N>)
    requires Good(h)
    ensures forall n :: n in h.destroyed ==> n in h.refs && !Live(h, n)
  {
  }

  /** A pass that destroys unreachable objects only and leaves no reachable object flagged. */
  ghost predicate PassSafe<N>(h: Heap<N>, list: seq<N>, locks: nat -> bool, clock: nat)
    requires Good(h) && forall i :: 0 <= i < |list| ==> list[i] in h.refs
  {
    var r := CollectList(h, list, locks, clock).heap;
    FlagsSound(r) && forall n :: n in r.destroyed - h.destroyed ==> n in h.refs && !Live(h, n)
  }

  /** The same heap up to the order of lists, and objects as they may lie on a page: none of them twice. */
  ghost predicate Possible<N>(h: Heap<N>, h': Heap<N>, list: seq<N>) {
    Shuffled(h, h') && Good(h') && Distinct(list) && forall i :: 0 <= i < |list| ==> list[i] in h'.refs
  }

  ghost predicate EveryPassSafe<N(!new)>(h: Heap<N>) {
    forall h', list, locks, clock {:trigger PassSafe(h', list, locks, clock)} ::
      Possible(h, h', list) ==> PassSafe(h', list, locks, clock)
  }

  lemma ShuffledPassIsSafe<N>(h: Heap<N>, h': Heap<N>, list: seq<N>, locks: nat -> bool, clock: nat)
    requires Collectable(h) && Shuffled(h, h') && Good(h') && forall i :: 0 <= i < |list| ==> list[i] in h'.refs
    ensures PassSafe(h', list, locks, clock)
  {
    ShuffledIsGood(h, h');
    ReorderedKnots(GraphOf(h), GraphOf(h'));
    CollectListIsSafe(h', list, locks, clock);
  }

  lemma KnotMakesPassUnsafe<N(!new)>(h: Heap<N>, knot: set<N>)
    requires Good(h) && Knot(GraphOf(h), knot)
    ensures !EveryPassSafe(h)
  {
    hide Good, Knot, PassSafe, Shuffled, CollectList, Live;
    var locks := (t: nat) => true;
    var h', n, lost := KnotLosesObject(h, knot, locks, 0);
    assert Possible(h, h', [n]);
  }

  /**
   Collection passes destroy unreachable objects only and leave no reachable object flagged, over
   whatever page, in whatever order the `referencedBy` lists happen to be and whichever locks are
   refused, exactly if no live cycle of objects without root handles exists.
   */
  lemma PassesSafeIffNoLiveCycle<N(!new)>(h: Heap<N>)
    requires Good(h)
    ensures NoLiveCycle(GraphOf(h)) <==> EveryPassSafe(h)
  {
    if NoLiveCycle(GraphOf(h)) {
      forall h', list, locks, clock | Possible(h, h', list)
        ensures PassSafe(h', list, locks, clock)
      {
        ShuffledPassIsSafe(h, h', list, locks, clock);
      }
    } else {
      var knot :| knot <= GraphOf(h).refs.Keys && Knot(GraphOf(h), knot);
      KnotMakesPassUnsafe(h, knot);
    }
  }
}
