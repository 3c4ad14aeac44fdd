/**
 The reference graph of the collector and the backward search for a root.

 A node is an object; `refs[n]` is its `referencedBy` list in list order, so an edge
 leads from an object to an object that holds it in a field. A node is a root while its
 `rootHandleCount` is positive.
 */
module References {

  datatype Graph<N> = Graph(refs: map<N, seq<N>>, roots: set<N>)

  ghost predicate WellFormed<N>(g: Graph<N>) {
    && g.roots <= g.refs.Keys
    && forall n, i :: n in g.refs && 0 <= i < |g.refs[n]| ==> g.refs[n][i] in g.refs
  }

  // ---------------------------------------------------------------- reachability

  /** A root is found from `n` in at most `steps` steps through objects outside `avoid`. */
  ghost predicate RootedWithin<N>(g: Graph<N>, avoid: set<N>, n: N, steps: nat)
    requires WellFormed(g) && n in g.refs
  {
    || n in g.roots
    || (steps > 0 && n !in avoid
        && exists i :: 0 <= i < |g.refs[n]| && RootedWithin(g, avoid, g.refs[n][i], steps - 1))
  }

  ghost predicate Rooted<N>(g: Graph<N>, avoid: set<N>, n: N)
    requires WellFormed(g) && n in g.refs
  {
    exists steps: nat :: RootedWithin(g, avoid, n, steps)
  }

  /** An object is reachable when following references backwards leads to a root. */
  ghost predicate Reachable<N>(g: Graph<N>, n: N)
    requires WellFormed(g) && n in g.refs
  {
    Rooted(g, {}, n)
  }

  /** One step of `Rooted`, without the step count. */
  lemma RootedStep<N>(g: Graph<N>, avoid: set<N>, n: N)
    requires WellFormed(g) && n in g.refs
    ensures Rooted(g, avoid, n) <==>
            n in g.roots || (n !in avoid && exists i :: 0 <= i < |g.refs[n]| && Rooted(g, avoid, g.refs[n][i]))
  {
    if n in g.roots {
      assert RootedWithin(g, avoid, n, 0);
    } else {
      if Rooted(g, avoid, n) {
        var steps: nat :| RootedWithin(g, avoid, n, steps);
        var i :| 0 <= i < |g.refs[n]| && RootedWithin(g, avoid, g.refs[n][i], steps - 1);
        assert Rooted(g, avoid, g.refs[n][i]);
      }
      if n !in avoid && exists i :: 0 <= i < |g.refs[n]| && Rooted(g, avoid, g.refs[n][i]) {
        var i :| 0 <= i < |g.refs[n]| && Rooted(g, avoid, g.refs[n][i]);
        var steps: nat :| RootedWithin(g, avoid, g.refs[n][i], steps);
        assert RootedWithin(g, avoid, n, steps + 1);
      }
    }
  }

  lemma RootsAreReachable<N>(g: Graph<N>)
    requires WellFormed(g)
    ensures forall n :: n in g.roots ==> Reachable(g, n)
  {
    forall n | n in g.roots ensures Reachable(g, n) {
      RootedStep(g, {}, n);
    }
  }

  /** What a reachable object holds is reachable. */
  lemma ReachableStep<N>(g: Graph<N>, n: N, i: nat)
    requires WellFormed(g) && n in g.refs && i < |g.refs[n]|
    requires Reachable(g, g.refs[n][i])
    ensures Reachable(g, n)
  {
    RootedStep(g, {}, n);
  }

  /** A set without roots that is closed under unavoided references holds nothing rooted. */
  lemma {:induction false} BarrierWithin<N>(g: Graph<N>, avoid: set<N>, barrier: set<N>, n: N, steps: nat)
    requires WellFormed(g) && barrier <= g.refs.Keys && barrier !! g.roots
    requires forall m, i :: m in barrier - avoid && 0 <= i < |g.refs[m]| ==> g.refs[m][i] in barrier
    requires n in barrier
    ensures !RootedWithin(g, avoid, n, steps)
  {
    if steps > 0 && n !in avoid {
      forall i | 0 <= i < |g.refs[n]| ensures !RootedWithin(g, avoid, g.refs[n][i], steps - 1) {
        assert n in barrier - avoid;
        BarrierWithin(g, avoid, barrier, g.refs[n][i], steps - 1);
      }
    }
  }

  lemma Barrier<N>(g: Graph<N>, avoid: set<N>, barrier: set<N>)
    requires WellFormed(g) && barrier <= g.refs.Keys && barrier !! g.roots
    requires forall m, i :: m in barrier - avoid && 0 <= i < |g.refs[m]| ==> g.refs[m][i] in barrier
    ensures forall n :: n in barrier ==> !Rooted(g, avoid, n)
  {
    forall n | n in barrier ensures !Rooted(g, avoid, n) {
      forall steps: nat ensures !RootedWithin(g, avoid, n, steps) {
        BarrierWithin(g, avoid, barrier, n, steps);
      }
    }
  }

  lemma {:induction false} FewerEdgesWithin<N>(g: Graph<N>, g': Graph<N>, n: N, steps: nat)
    requires WellFormed(g) && WellFormed(g') && n in g'.refs
    requires g'.refs.Keys <= g.refs.Keys
    requires forall m :: m in g'.roots ==> Reachable(g, m)
    requires forall m, i :: m in g'.refs && 0 <= i < |g'.refs[m]| ==>
      g'.refs[m][i] in g.refs[m] || Reachable(g, m) || !Reachable(g', g'.refs[m][i])
    requires RootedWithin(g', {}, n, steps)
    ensures Reachable(g, n)
  {
    if n !in g'.roots {
      var i :| 0 <= i < |g'.refs[n]| && RootedWithin(g', {}, g'.refs[n][i], steps - 1);
      FewerEdgesWithin(g, g', g'.refs[n][i], steps - 1);
      if !Reachable(g, n) {
        var j :| 0 <= j < |g.refs[n]| && g.refs[n][j] == g'.refs[n][i];
        ReachableStep(g, n, j);
      }
    }
  }

  /**
   Reachability does not grow when every root of the new graph was reachable and every new
   reference is to an object that was reachable anyway, or from one that is not.
   */
  lemma ReachableShrinks<N>(g: Graph<N>, g': Graph<N>)
    requires WellFormed(g) && WellFormed(g') && g'.refs.Keys <= g.refs.Keys
    requires forall m :: m in g'.roots ==> Reachable(g, m)
    requires forall m, i :: m in g'.refs && 0 <= i < |g'.refs[m]| ==>
      g'.refs[m][i] in g.refs[m] || Reachable(g, m) || !Reachable(g', g'.refs[m][i])
    ensures forall n :: n in g'.refs && Reachable(g', n) ==> Reachable(g, n)
  {
    forall n | n in g'.refs && Reachable(g', n) ensures Reachable(g, n) {
      var steps: nat :| RootedWithin(g', {}, n, steps);
      FewerEdgesWithin(g, g', n, steps);
    }
  }

  // ---------------------------------------------------------------- the search

  /** What a search leaves behind: its answer, the flagged objects, the lock attempts made. */
  datatype Outcome<N> = Outcome(found: bool, flagged: set<N>, clock: nat)

  /**
   The search from one object. `marked` are the objects whose mark bit for this collector is
   set, `locks(t)` tells whether the `t`-th attempt to take a read lock succeeds.
   */
  function Search<N(==)>(g: Graph<N>, flagged: set<N>, marked: set<N>, n: N, locks: nat -> bool, clock: nat): Outcome<N>
    requires WellFormed(g) && n in g.refs
    decreases g.refs.Keys - marked, 0
  {
    if n in marked then Outcome(false, flagged, clock)
    else if n in g.roots then Outcome(true, flagged, clock)
    else if n in flagged then Outcome(false, flagged, clock)
    else
      assert n in g.refs.Keys - marked;
      SearchList(g, flagged, marked + {n}, g.refs[n], locks, clock)
  }

  /** The search through (the rest of) one `referencedBy` list, stopping at the first success. */
  function SearchList<N(==)>(g: Graph<N>, flagged: set<N>, marked: set<N>, list: seq<N>, locks: nat -> bool, clock: nat): Outcome<N>
    requires WellFormed(g) && forall i :: 0 <= i < |list| ==> list[i] in g.refs
    decreases g.refs.Keys - marked, |list|
  {
    if list == [] then Outcome(false, flagged, clock)
    else if list[0] in g.roots then Outcome(true, flagged, clock)
    else if list[0] in flagged then SearchList(g, flagged, marked, list[1..], locks, clock)
    else if !locks(clock) then Outcome(true, flagged, clock + 1)
    else
      var inner := Search(g, flagged, marked, list[0], locks, clock + 1);
      if inner.found then inner
      else SearchList(g, inner.flagged + {list[0]}, marked, list[1..], locks, inner.clock)
  }

  /** A list is searched one reference after the other. */
  lemma {:induction false} SearchListByOne<N>(g: Graph<N>, flagged: set<N>, marked: set<N>, list: seq<N>, locks: nat -> bool, clock: nat)
    requires WellFormed(g) && (forall i :: 0 <= i < |list| ==> list[i] in g.refs) && list != []
    ensures var first := SearchList(g, flagged, marked, [list[0]], locks, clock);
            SearchList(g, flagged, marked, list, locks, clock) ==
            if first.found then first else SearchList(g, first.flagged, marked, list[1..], locks, first.clock)
  {
    assert [list[0]][1..] == [];
  }

  /** Flags are only ever added, and only to known objects that are not roots; time moves forward. */
  lemma {:induction false} SearchGrows<N>(g: Graph<N>, flagged: set<N>, marked: set<N>, n: N, locks: nat -> bool, clock: nat)
    requires WellFormed(g) && n in g.refs
    ensures var o := Search(g, flagged, marked, n, locks, clock);
            flagged <= o.flagged <= flagged + (g.refs.Keys - g.roots) && clock <= o.clock
    decreases g.refs.Keys - marked, 0
  {
    if n !in marked && n !in g.roots && n !in flagged {
      assert n in g.refs.Keys - marked;
      SearchListGrows(g, flagged, marked + {n}, g.refs[n], locks, clock);
    }
  }

  lemma {:induction false} SearchListGrows<N>(g: Graph<N>, flagged: set<N>, marked: set<N>, list: seq<N>, locks: nat -> bool, clock: nat)
    requires WellFormed(g) && forall i :: 0 <= i < |list| ==> list[i] in g.refs
    ensures var o := SearchList(g, flagged, marked, list, locks, clock);
            flagged <= o.flagged <= flagged + (g.refs.Keys - g.roots) && clock <= o.clock
    decreases g.refs.Keys - marked, |list|
  {
    if list != [] && list[0] !in g.roots {
      if list[0] in flagged {
        SearchListGrows(g, flagged, marked, list[1..], locks, clock);
      } else if locks(clock) {
        SearchGrows(g, flagged, marked, list[0], locks, clock + 1);
        var inner := Search(g, flagged, marked, list[0], locks, clock + 1);
        if !inner.found {
          SearchListGrows(g, inner.flagged + {list[0]}, marked, list[1..], locks, inner.clock);
        }
      }
    }
  }

  // ---------------------------------------------------------------- a negative answer is right

  /**
   The invariant of the search while nothing has been found: every object that was flagged
   since `before` and is not on the search's stack is no root and is referenced only by
   objects that are no roots and are flagged or on the stack.
   */
  ghost predicate Settled<N>(g: Graph<N>, before: set<N>, flagged: set<N>, marked: set<N>)
    requires WellFormed(g)
  {
    forall m :: m in flagged - before - marked && m in g.refs ==>
      && m !in g.roots
      && forall i :: 0 <= i < |g.refs[m]| ==> g.refs[m][i] !in g.roots && g.refs[m][i] in flagged + marked
  }

  lemma {:induction false} SearchSettles<N>(g: Graph<N>, before: set<N>, flagged: set<N>, marked: set<N>, n: N, locks: nat -> bool, clock: nat)
    requires WellFormed(g) && n in g.refs
    requires before <= flagged && marked !! g.roots && Settled(g, before, flagged, marked)
    ensures var o := Search(g, flagged, marked, n, locks, clock);
            !o.found ==> n !in g.roots && Settled(g, before, o.flagged + {n}, marked)
    decreases g.refs.Keys - marked, 0
  {
    if n in flagged {
      assert flagged + {n} == flagged;
    } else if n !in marked && n !in g.roots {
      assert n in g.refs.Keys - marked;
      SearchListSettles(g, before, flagged, marked + {n}, g.refs[n], locks, clock);
      SearchListGrows(g, flagged, marked + {n}, g.refs[n], locks, clock);
    }
  }

  lemma {:induction false} SearchListSettles<N>(g: Graph<N>, before: set<N>, flagged: set<N>, marked: set<N>, list: seq<N>, locks: nat -> bool, clock: nat)
    requires WellFormed(g) && forall i :: 0 <= i < |list| ==> list[i] in g.refs
    requires before <= flagged && marked !! g.roots && Settled(g, before, flagged, marked)
    ensures var o := SearchList(g, flagged, marked, list, locks, clock);
            !o.found ==>
              && Settled(g, before, o.flagged, marked)
              && forall i :: 0 <= i < |list| ==> list[i] !in g.roots && list[i] in o.flagged
    decreases g.refs.Keys - marked, |list|
  {
    if list != [] && list[0] !in g.roots {
      if list[0] in flagged {
        SearchListSettles(g, before, flagged, marked, list[1..], locks, clock);
        SearchListGrows(g, flagged, marked, list[1..], locks, clock);
      } else if locks(clock) {
        SearchSettles(g, before, flagged, marked, list[0], locks, clock + 1);
        SearchGrows(g, flagged, marked, list[0], locks, clock + 1);
        var inner := Search(g, flagged, marked, list[0], locks, clock + 1);
        if !inner.found {
          SearchListSettles(g, before, inner.flagged + {list[0]}, marked, list[1..], locks, inner.clock);
          SearchListGrows(g, inner.flagged + {list[0]}, marked, list[1..], locks, inner.clock);
        }
      }
    }
  }

  lemma {:induction false} AvoidLess<N>(g: Graph<N>, avoid: set<N>, avoid': set<N>, n: N, steps: nat)
    requires WellFormed(g) && n in g.refs && avoid' <= avoid
    requires RootedWithin(g, avoid, n, steps)
    ensures RootedWithin(g, avoid', n, steps)
  {
    if n !in g.roots {
      var i :| 0 <= i < |g.refs[n]| && RootedWithin(g, avoid, g.refs[n][i], steps - 1);
      AvoidLess(g, avoid, avoid', g.refs[n][i], steps - 1);
    }
  }

  /** A positive answer rests on a path to a root, or on a lock that was not available. */
  lemma {:induction false} SearchFinds<N>(g: Graph<N>, flagged: set<N>, marked: set<N>, n: N, locks: nat -> bool, clock: nat)
    requires WellFormed(g) && n in g.refs
    ensures var o := Search(g, flagged, marked, n, locks, clock);
            && clock <= o.clock
            && (o.found && (forall t :: clock <= t < o.clock ==> locks(t)) ==> Rooted(g, flagged, n))
    decreases g.refs.Keys - marked, 0
  {
    RootedStep(g, flagged, n);
    if n !in marked && n !in g.roots && n !in flagged {
      assert n in g.refs.Keys - marked;
      SearchListFinds(g, flagged, marked + {n}, g.refs[n], locks, clock);
    }
  }

  lemma {:induction false} SearchListFinds<N>(g: Graph<N>, flagged: set<N>, marked: set<N>, list: seq<N>, locks: nat -> bool, clock: nat)
    requires WellFormed(g) && forall i :: 0 <= i < |list| ==> list[i] in g.refs
    ensures var o := SearchList(g, flagged, marked, list, locks, clock);
            && clock <= o.clock
            && (o.found && (forall t :: clock <= t < o.clock ==> locks(t)) ==>
                  exists i :: 0 <= i < |list| && Rooted(g, flagged, list[i]))
    decreases g.refs.Keys - marked, |list|
  {
    if list != [] {
      RootedStep(g, flagged, list[0]);
      if list[0] in g.roots {
      } else if list[0] in flagged {
        SearchListFinds(g, flagged, marked, list[1..], locks, clock);
      } else if locks(clock) {
        SearchFinds(g, flagged, marked, list[0], locks, clock + 1);
        SearchGrows(g, flagged, marked, list[0], locks, clock + 1);
        var inner := Search(g, flagged, marked, list[0], locks, clock + 1);
        if !inner.found {
          var more := inner.flagged + {list[0]};
          SearchListFinds(g, more, marked, list[1..], locks, inner.clock);
          var o := SearchList(g, more, marked, list[1..], locks, inner.clock);
          if o.found && forall t :: clock <= t < o.clock ==> locks(t) {
            var i :| 0 <= i < |list[1..]| && Rooted(g, more, list[1..][i]);
            var steps: nat :| RootedWithin(g, more, list[1..][i], steps);
            AvoidLess(g, more, flagged, list[1 + i], steps);
          }
        }
      }
    }
  }

  /**
   The top-level search is exact on every finite graph, cyclic or not: when every lock it asks
   for is free it answers true exactly if a path of references through objects unflagged at
   entry leads to a root, although it flags objects on the way. When locks are refused it can
   only err towards "alive".
   */
  lemma SearchIsExact<N>(g: Graph<N>, flagged: set<N>, n: N, locks: nat -> bool, clock: nat)
    requires WellFormed(g) && n in g.refs
    ensures var o := Search(g, flagged, {}, n, locks, clock);
            && (Rooted(g, flagged, n) ==> o.found)
            && ((forall t :: clock <= t < o.clock ==> locks(t)) ==> (o.found <==> Rooted(g, flagged, n)))
  {
    var o := Search(g, flagged, {}, n, locks, clock);
    SearchFinds(g, flagged, {}, n, locks, clock);
    if !o.found {
      SearchSettles(g, flagged, flagged, {}, n, locks, clock);
      SearchGrows(g, flagged, {}, n, locks, clock);
      Barrier(g, flagged, (o.flagged + {n}) * g.refs.Keys - g.roots);
    }
  }

  // ---------------------------------------------------------------- flags

  /** Flags are sound when no reachable object carries one. */
  ghost predicate Sound<N>(g: Graph<N>, flagged: set<N>)
    requires WellFormed(g)
  {
    forall m :: m in flagged && m in g.refs ==> !Reachable(g, m)
  }

  /** After a negative answer the object and everything flagged on the way is unreachable. */
  lemma NegativeAnswerIsSound<N>(g: Graph<N>, flagged: set<N>, n: N, locks: nat -> bool, clock: nat)
    requires WellFormed(g) && n in g.refs && Sound(g, flagged)
    ensures var o := Search(g, flagged, {}, n, locks, clock);
            !o.found ==> Sound(g, o.flagged + {n})
  {
    var o := Search(g, flagged, {}, n, locks, clock);
    if !o.found {
      SearchSettles(g, flagged, flagged, {}, n, locks, clock);
      SearchGrows(g, flagged, {}, n, locks, clock);
      var barrier := (o.flagged + {n}) * g.refs.Keys + (set m | m in g.refs && !Reachable(g, m));
      forall m | m in barrier
        ensures m !in g.roots && forall i :: 0 <= i < |g.refs[m]| ==> g.refs[m][i] in barrier
      {
        RootedStep(g, {}, m);
      }
      Barrier(g, {}, barrier);
    }
  }

  // ---------------------------------------------------------------- live cycles

  /** Some object of `holders` references `n`. */
  ghost predicate HeldBy<N>(g: Graph<N>, n: N, holders: set<N>)
    requires n in g.refs
  {
    exists i :: 0 <= i < |g.refs[n]| && g.refs[n][i] in holders
  }

  /**
   A knot is a set of live objects without root handles each of which is referenced by a
   member of the set. A finite graph has a knot exactly if it has a cycle of such objects.
   */
  ghost predicate Knot<N>(g: Graph<N>, knot: set<N>)
    requires WellFormed(g)
  {
    && knot != {} && knot <= g.refs.Keys && knot !! g.roots
    && (forall n :: n in knot ==> Reachable(g, n))
    && (forall n {:trigger HeldBy(g, n, knot)} :: n in knot ==> HeldBy(g, n, knot))
  }

  ghost predicate NoLiveCycle<N>(g: Graph<N>)
    requires WellFormed(g)
  {
    forall knot :: knot <= g.refs.Keys ==> !Knot(g, knot)
  }

  /** A cycle: each object is referenced by the next one, and the last by the first. */
  ghost predicate Cycle<N>(g: Graph<N>, cycle: seq<N>) {
    && cycle != []
    && (forall i :: 0 <= i < |cycle| ==> cycle[i] in g.refs)
    && (forall i :: 0 <= i < |cycle| ==> cycle[if i == |cycle| - 1 then 0 else i + 1] in g.refs[cycle[i]])
  }

  ghost predicate LiveCycle<N>(g: Graph<N>, cycle: seq<N>)
    requires WellFormed(g)
  {
    && Cycle(g, cycle)
    && (forall i :: 0 <= i < |cycle| ==> cycle[i] !in g.roots && Reachable(g, cycle[i]))
  }

  /** Following references inside a finite set must run into the walk made so far. */
  lemma {:induction false} WalkCloses<N>(g: Graph<N>, knot: set<N>, walk: seq<N>) returns (cycle: seq<N>)
    requires knot <= g.refs.Keys && walk != []
    requires forall n {:trigger HeldBy(g, n, knot)} :: n in knot ==> HeldBy(g, n, knot)
    requires forall i :: 0 <= i < |walk| ==> walk[i] in knot
    requires forall i :: 0 < i < |walk| ==> walk[i] in g.refs[walk[i - 1]]
    ensures Cycle(g, cycle) && forall i :: 0 <= i < |cycle| ==> cycle[i] in knot
    decreases knot - set n | n in walk
  {
    var last := walk[|walk| - 1];
    assert HeldBy(g, last, knot);
    var i :| 0 <= i < |g.refs[last]| && g.refs[last][i] in knot;
    var next := g.refs[last][i];
    if next in walk {
      var j :| 0 <= j < |walk| && walk[j] == next;
      cycle := walk[j..];
    } else {
      var left, left' := knot - (set n | n in walk), knot - (set n | n in walk + [next]);
      assert next in walk + [next] && next in left - left';
      assert forall n :: n in walk ==> n in walk + [next];
      cycle := WalkCloses(g, knot, walk + [next]);
    }
  }

  lemma CycleMakesKnot<N>(g: Graph<N>, cycle: seq<N>)
    requires WellFormed(g) && LiveCycle(g, cycle)
    ensures !NoLiveCycle(g)
  {
    var knot := set n | n in cycle;
    forall n | n in knot ensures HeldBy(g, n, knot) {
      var j :| 0 <= j < |cycle| && cycle[j] == n;
      assert cycle[if j == |cycle| - 1 then 0 else j + 1] in g.refs[n];
    }
    assert cycle[0] in knot;
    assert Knot(g, knot);
  }

  lemma KnotMakesCycle<N>(g: Graph<N>, knot: set<N>) returns (cycle: seq<N>)
    requires WellFormed(g) && Knot(g, knot)
    ensures LiveCycle(g, cycle)
  {
    var n :| n in knot;
    cycle := WalkCloses(g, knot, [n]);
  }

  /** The two ways to say it agree: there is no knot exactly if there is no cycle. */
  lemma KnotMeansCycle<N(!new)>(g: Graph<N>)
    requires WellFormed(g)
    ensures NoLiveCycle(g) <==> forall cycle :: !LiveCycle(g, cycle)
  {
    forall cycle | LiveCycle(g, cycle) ensures !NoLiveCycle(g) {
      CycleMakesKnot(g, cycle);
    }
    if !NoLiveCycle(g) {
      var knot :| knot <= g.refs.Keys && Knot(g, knot);
      var cycle := KnotMakesCycle(g, knot);
    }
  }

  /**
   The search's stack below `n`: every member is referenced by the member above it or by `n`,
   so if `n` is reachable all of them are.
   */
  ghost predicate Stack<N>(g: Graph<N>, marked: set<N>, n: N)
    requires WellFormed(g) && n in g.refs
  {
    && marked <= g.refs.Keys && marked !! g.roots
    && (forall m {:trigger HeldBy(g, m, marked + {n})} :: m in marked ==> HeldBy(g, m, marked + {n}))
    && (Reachable(g, n) ==> forall m :: m in marked ==> Reachable(g, m))
  }

  lemma {:induction false} SearchKeepsFlagsSound<N>(g: Graph<N>, flagged: set<N>, marked: set<N>, n: N, locks: nat -> bool, clock: nat)
    requires WellFormed(g) && n in g.refs && NoLiveCycle(g)
    requires Sound(g, flagged) && Stack(g, marked, n)
    ensures var o := Search(g, flagged, marked, n, locks, clock);
            Sound(g, o.flagged) && (!o.found ==> !Reachable(g, n))
    decreases g.refs.Keys - marked, 0
  {
    RootedStep(g, {}, n);
    if n in marked {
      assert marked + {n} == marked;
    } else if n !in g.roots && n !in flagged {
      assert n in g.refs.Keys - marked;
      SearchListKeepsFlagsSound(g, flagged, marked, n, 0, locks, clock);
      assert g.refs[n][0..] == g.refs[n];
    }
  }

  lemma {:induction false} SearchListKeepsFlagsSound<N>(g: Graph<N>, flagged: set<N>, marked: set<N>, n: N, from: nat, locks: nat -> bool, clock: nat)
    requires WellFormed(g) && n in g.refs && NoLiveCycle(g)
    requires Sound(g, flagged) && Stack(g, marked, n) && n !in marked && n !in g.roots && from <= |g.refs[n]|
    ensures var o := SearchList(g, flagged, marked + {n}, g.refs[n][from..], locks, clock);
            Sound(g, o.flagged) && (!o.found ==> forall i :: from <= i < |g.refs[n]| ==> !Reachable(g, g.refs[n][i]))
    decreases g.refs.Keys - (marked + {n}), |g.refs[n]| - from
  {
    if from < |g.refs[n]| {
      var list := g.refs[n][from..];
      assert list[1..] == g.refs[n][from + 1..];
      if list[0] in g.roots {
      } else if list[0] in flagged {
        SearchListKeepsFlagsSound(g, flagged, marked, n, from + 1, locks, clock);
      } else if locks(clock) {
        StackGrows(g, marked, n, from);
        SearchKeepsFlagsSound(g, flagged, marked + {n}, list[0], locks, clock + 1);
        var inner := Search(g, flagged, marked + {n}, list[0], locks, clock + 1);
        if !inner.found {
          SearchListKeepsFlagsSound(g, inner.flagged + {list[0]}, marked, n, from + 1, locks, inner.clock);
        }
      }
    }
  }

  lemma StackGrows<N>(g: Graph<N>, marked: set<N>, n: N, i: nat)
    requires WellFormed(g) && n in g.refs && n !in g.roots && i < |g.refs[n]|
    requires Stack(g, marked, n)
    ensures Stack(g, marked + {n}, g.refs[n][i])
  {
    forall m | m in marked + {n}
      ensures HeldBy(g, m, marked + {n} + {g.refs[n][i]})
    {
      if m == n {
        assert g.refs[m][i] in marked + {n} + {g.refs[n][i]};
      } else {
        assert HeldBy(g, m, marked + {n});
        var j :| 0 <= j < |g.refs[m]| && g.refs[m][j] in marked + {n};
      }
    }
    if Reachable(g, g.refs[n][i]) {
      ReachableStep(g, n, i);
    }
  }

  // ---------------------------------------------------------------- and no weaker condition will do

  /** The same graph with every `referencedBy` list in some other order. */
  ghost predicate Reordered<N>(g: Graph<N>, g': Graph<N>) {
    && g'.roots == g.roots && g'.refs.Keys == g.refs.Keys
    && forall n :: n in g.refs ==> multiset(g'.refs[n]) == multiset(g.refs[n])
  }

  lemma ReorderedElements<N>(g: Graph<N>, g': Graph<N>)
    requires WellFormed(g) && Reordered(g, g')
    ensures WellFormed(g')
    ensures forall n, m :: n in g.refs ==> (m in g.refs[n] <==> m in g'.refs[n])
  {
    forall n, m | n in g.refs ensures m in g.refs[n] <==> m in g'.refs[n] {
      assert m in g.refs[n] <==> m in multiset(g.refs[n]);
      assert m in g'.refs[n] <==> m in multiset(g'.refs[n]);
    }
    forall n, i | n in g'.refs && 0 <= i < |g'.refs[n]| ensures g'.refs[n][i] in g'.refs {
      assert g'.refs[n][i] in g.refs[n];
    }
  }

  lemma ReorderedReaches<N>(g: Graph<N>, g': Graph<N>)
    requires WellFormed(g) && WellFormed(g') && Reordered(g, g')
    ensures forall n :: n in g.refs ==> (Reachable(g, n) <==> Reachable(g', n))
  {
    ReorderedElements(g, g');
    RootsAreReachable(g);
    RootsAreReachable(g');
    ReachableShrinks(g, g');
    ReachableShrinks(g', g);
  }

  /** A search that walks round a knot first comes back to its own stack and flags what it finds there. */
  lemma {:induction false} SearchRunsRound<N>(g: Graph<N>, knot: set<N>, flagged: set<N>, marked: set<N>, n: N, locks: nat -> bool, clock: nat)
    requires WellFormed(g) && n in g.refs
    requires knot <= g.refs.Keys && knot !! g.roots && n in knot - marked && knot !! flagged
    requires forall m {:trigger g.refs[m]} :: m in knot ==> g.refs[m] != [] && g.refs[m][0] in knot
    requires forall t :: locks(t)
    ensures Search(g, flagged, marked, n, locks, clock).flagged * knot != {}
    decreases g.refs.Keys - marked
  {
    assert n in g.refs.Keys - marked;
    var next := g.refs[n][0];
    var inner := Search(g, flagged, marked + {n}, next, locks, clock + 1);
    SearchGrows(g, flagged, marked + {n}, next, locks, clock + 1);
    if next !in marked + {n} {
      SearchRunsRound(g, knot, flagged, marked + {n}, next, locks, clock + 1);
    }
    if !inner.found {
      assert next in (inner.flagged + {next}) * knot;
      SearchListGrows(g, inner.flagged + {next}, marked + {n}, g.refs[n][1..], locks, inner.clock);
      assert next in SearchList(g, flagged, marked + {n}, g.refs[n], locks, clock).flagged;
    }
  }

  /** The list with some member of `holders` moved to the front, if it has one. */
  ghost function HolderFirst<N>(list: seq<N>, holders: set<N>): (r: seq<N>)
    ensures multiset(r) == multiset(list)
    ensures (exists i :: 0 <= i < |list| && list[i] in holders) ==> r != [] && r[0] in holders
  {
    if i :| 0 <= i < |list| && list[i] in holders then
      assert list == list[..i] + [list[i]] + list[i + 1..];
      [list[i]] + list[..i] + list[i + 1..]
    else list
  }

  ghost function KnotFirst<N>(g: Graph<N>, knot: set<N>): (g': Graph<N>)
    ensures Reordered(g, g')
    ensures forall n {:trigger g'.refs[n]} :: n in g.refs && HeldBy(g, n, knot) ==> g'.refs[n] != [] && g'.refs[n][0] in knot
  {
    Graph(map n | n in g.refs :: HolderFirst(g.refs[n], knot), g.roots)
  }

  lemma KnotIsFlagged<N>(g: Graph<N>, knot: set<N>, flagged: set<N>, n: N, locks: nat -> bool, clock: nat)
    requires WellFormed(KnotFirst(g, knot))
    requires n in knot && knot <= g.refs.Keys && knot !! g.roots && knot !! flagged
    requires forall m {:trigger HeldBy(g, m, knot)} :: m in knot ==> HeldBy(g, m, knot)
    requires forall t :: locks(t)
    ensures Search(KnotFirst(g, knot), flagged, {}, n, locks, clock).flagged * knot != {}
  {
    var g' := KnotFirst(g, knot);
    SearchRunsRound(g', knot, flagged, {}, n, locks, clock);
  }

  /** If there is a knot, some order of the lists makes a search flag a live object. */
  lemma KnotMisleads<N>(g: Graph<N>, knot: set<N>, flagged: set<N>, locks: nat -> bool, clock: nat) returns (g': Graph<N>, n: N)
    requires WellFormed(g) && Knot(g, knot) && Sound(g, flagged) && forall t :: locks(t)
    ensures Reordered(g, g') && WellFormed(g') && n in knot
    ensures !Sound(g', Search(g', flagged, {}, n, locks, clock).flagged)
  {
    g' := KnotFirst(g, knot);
    n :| n in knot;
    ReorderedElements(g, g');
    KnotIsFlagged(g, knot, flagged, n, locks, clock);
    var bad :| bad in Search(g', flagged, {}, n, locks, clock).flagged * knot;
    ReorderedReaches(g, g');
    assert Reachable(g', bad);
  }

  ghost predicate EverySearchSound<N(!new)>(g: Graph<N>, flagged: set<N>)
    requires WellFormed(g)
  {
    forall g', n, locks, clock ::
      Reordered(g, g') && WellFormed(g') && n in g'.refs ==> Sound(g', Search(g', flagged, {}, n, locks, clock).flagged)
  }

  lemma ReorderedKnots<N>(g: Graph<N>, g': Graph<N>)
    requires WellFormed(g) && WellFormed(g') && Reordered(g, g') && NoLiveCycle(g)
    ensures NoLiveCycle(g')
  {
    ReorderedElements(g, g');
    ReorderedReaches(g, g');
    forall knot | knot <= g'.refs.Keys && Knot(g', knot) ensures false {
      forall n | n in knot ensures HeldBy(g, n, knot) {
        assert HeldBy(g', n, knot);
        var j :| 0 <= j < |g'.refs[n]| && g'.refs[n][j] in knot;
        assert g'.refs[n][j] in g.refs[n];
      }
      assert Knot(g, knot);
    }
  }

  /**
   Searching keeps sound flags sound, from whichever object it starts, in whatever order the
   `referencedBy` lists happen to be and whichever locks are refused, exactly if no live cycle
   of objects without root handles exists.
   */
  lemma SearchesSoundIffNoLiveCycle<N(!new)>(g: Graph<N>, flagged: set<N>)
    requires WellFormed(g) && Sound(g, flagged)
    ensures NoLiveCycle(g) <==> EverySearchSound(g, flagged)
  {
    if NoLiveCycle(g) {
      forall g', n, locks, clock | Reordered(g, g') && WellFormed(g') && n in g'.refs
        ensures Sound(g', Search(g', flagged, {}, n, locks, clock).flagged)
      {
        ReorderedReaches(g, g');
        ReorderedKnots(g, g');
        SearchKeepsFlagsSound(g', flagged, {}, n, locks, clock);
      }
    } else {
      var knot :| knot <= g.refs.Keys && Knot(g, knot);
      var g', n := KnotMisleads(g, knot, flagged, t => true, 0);
    }
  }

  // ---------------------------------------------------------------- the failure, on three objects

  /**
   `a` is held by `b` and by the root `r`, and `b` is held by `a`. Searching from `a` answers
   true, yet leaves the live objects `a` and `b` flagged.
   */
  lemma LiveCycleCounterexample(locks: nat -> bool, clock: nat)
    requires forall t :: locks(t)
    ensures var g := Graph(map['a' := ['b', 'r'], 'b' := ['a'], 'r' := []], {'r'});
            && WellFormed(g) && Sound(g, {}) && Reachable(g, 'a') && Reachable(g, 'b')
            && Search(g, {}, {}, 'a', locks, clock) == Outcome(true, {'a', 'b'}, clock + 2)
  {
    var g := Graph(map['a' := ['b', 'r'], 'b' := ['a'], 'r' := []], {'r'});
    assert g.refs['a'][1] == 'r' && g.refs['b'][0] == 'a';
    RootedStep(g, {}, 'r');
    RootedStep(g, {}, 'a');
    RootedStep(g, {}, 'b');
    assert Search(g, {}, {'a', 'b'}, 'a', locks, clock + 2) == Outcome(false, {}, clock + 2);
    assert SearchList(g, {}, {'a', 'b'}, ['a'], locks, clock + 1) == Outcome(false, {'a'}, clock + 2);
    assert Search(g, {}, {'a'}, 'b', locks, clock + 1) == Outcome(false, {'a'}, clock + 2);
    assert ['b', 'r'][1..] == ['r'];
    assert SearchList(g, {'a', 'b'}, {'a'}, ['r'], locks, clock + 2) == Outcome(true, {'a', 'b'}, clock + 2);
    assert SearchList(g, {}, {'a'}, ['b', 'r'], locks, clock) == Outcome(true, {'a', 'b'}, clock + 2);
  }
}
