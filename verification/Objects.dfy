/**
 The object heap as the collector sees it: who references whom, which fields hold what, root
 counts and garbage flags. The operations of the library are functions on such heaps; the
 methods of `Handle` and `Gc` compute them in place.
 */
module Objects {
  import opened Wrappers
  import opened References
  import opened Vectors

  /**
   `refs[n]` is the `referencedBy` list of `n`, `fields[n]` are the known fields of all
   elements of `n` in order, `roots[n]` is its `rootHandleCount`. Destroyed objects stay in
   the heap: other garbage may still point at them.
   */
  datatype Heap<N> = Heap(
    refs: map<N, seq<N>>,
    fields: map<N, seq<Option<N>>>,
    roots: map<N, nat>,
    flagged: set<N>,
    uninitialized: set<N>,
    destroyed: set<N>)

  function GraphOf<N>(h: Heap<N>): Graph<N> {
    Graph(h.refs, set n | n in h.roots && h.roots[n] > 0)
  }

  ghost predicate Shaped<N>(h: Heap<N>) {
    && h.fields.Keys == h.refs.Keys && h.roots.Keys == h.refs.Keys
    && h.flagged <= h.refs.Keys && h.uninitialized <= h.refs.Keys && h.destroyed <= h.flagged
    && WellFormed(GraphOf(h))
    && forall n, k :: n in h.fields && 0 <= k < |h.fields[n]| && h.fields[n][k].Some? ==> h.fields[n][k].value in h.fields
  }

  /** How often `s` occurs in the `referencedBy` list of `d`. */
  ghost function RefCount<N>(h: Heap<N>, d: N, s: N): nat
    requires d in h.refs
  {
    multiset(h.refs[d])[s]
  }

  /** How many fields of `s` hold `d`. */
  ghost function FieldCount<N>(h: Heap<N>, s: N, d: N): nat
    requires s in h.fields
  {
    multiset(h.fields[s])[Some(d)]
  }

  /** Every object occurs in a `referencedBy` list as often as its fields hold that list's owner. */
  ghost predicate Balanced<N>(h: Heap<N>)
    requires Shaped(h)
  {
    forall s, d {:trigger RefCount(h, d, s)} {:trigger FieldCount(h, s, d)} ::
      s in h.refs && d in h.refs ==> RefCount(h, d, s) == FieldCount(h, s, d)
  }

  ghost predicate Live<N>(h: Heap<N>, n: N)
    requires Shaped(h) && n in h.refs
  {
    Reachable(GraphOf(h), n)
  }

  ghost predicate FlagsSound<N>(h: Heap<N>)
    requires Shaped(h)
  {
    Sound(GraphOf(h), h.flagged)
  }

  ghost predicate Good<N>(h: Heap<N>) {
    Shaped(h) && Balanced(h) && FlagsSound(h)
  }

  // ---------------------------------------------------------------- SetField

  datatype FieldError = GarbageOwner | GarbageValue | UnawareOldValue

  function IndexOf<T(==)>(s: seq<T>, x: T): (i: nat)
    requires x in s
    ensures i < |s| && s[i] == x && x !in s[..i]
  {
    if s[0] == x then 0 else 1 + IndexOf(s[1..], x)
  }

  lemma {:induction false} IndexIsFirst<T>(s: seq<T>, x: T, i: nat)
    requires i < |s| && s[i] == x && x !in s[..i]
    ensures x in s && IndexOf(s, x) == i
  {
    if s[0] != x {
      assert s[1..][..i - 1] == s[..i][1..];
      IndexIsFirst(s[1..], x, i - 1);
    }
  }

  /** Erases the first `x` by overwriting it with the last element. */
  function SwapRemove<T(==)>(s: seq<T>, x: T): (r: seq<T>)
    requires x in s
    ensures multiset(r) == multiset(s) - multiset{x}
  {
    SwapPop(s, IndexOf(s, x))
  }

  /** The lists after `owner` was pushed onto the list of the new value. */
  function Pushed<N(==)>(refs: map<N, seq<N>>, owner: N, value: Option<N>): map<N, seq<N>>
    requires value.Some? ==> value.value in refs
  {
    if value.Some? then refs[value.value := refs[value.value] + [owner]] else refs
  }

  /** The lists after `owner` was also erased from the list of the old value. */
  function Erased<N(==)>(refs: map<N, seq<N>>, owner: N, previous: Option<N>): map<N, seq<N>>
    requires previous.Some? ==> previous.value in refs && owner in refs[previous.value]
  {
    if previous.Some? then refs[previous.value := SwapRemove(refs[previous.value], owner)] else refs
  }

  function SetField<N(==)>(h: Heap<N>, owner: N, slot: nat, value: Option<N>): Result<Heap<N>, FieldError>
    requires Shaped(h) && owner in h.fields && slot < |h.fields[owner]| && (value.Some? ==> value.value in h.refs)
  {
    var previous := h.fields[owner][slot];
    if previous == value then Ok(h)
    else if value.Some? && owner in h.flagged then Err(GarbageOwner)
    else if value.Some? && value.value in h.flagged then Err(GarbageValue)
    else if previous.Some? && owner !in Pushed(h.refs, owner, value)[previous.value] then Err(UnawareOldValue)
    else
      var refs := Erased(Pushed(h.refs, owner, value), owner, previous);
      Ok(h.(refs := refs,
            fields := h.fields[owner := h.fields[owner][slot := value]],
            flagged := h.flagged + if previous.Some? && refs[previous.value] == [] && h.roots[previous.value] == 0
                                   then {previous.value} else {}))
  }

  /** No field holds `n` and no root handle to it exists. */
  ghost predicate Forgotten<N>(h: Heap<N>, n: N)
    requires n in h.roots
  {
    h.roots[n] == 0 && forall s :: s in h.fields ==> Some(n) !in h.fields[s]
  }

  lemma UnreferencedMeansUnheld<N>(h: Heap<N>, n: N)
    requires Shaped(h) && Balanced(h) && n in h.refs
    ensures h.refs[n] == [] <==> forall s :: s in h.fields ==> Some(n) !in h.fields[s]
  {
    if h.refs[n] == [] {
      forall s | s in h.fields ensures Some(n) !in h.fields[s] {
        assert RefCount(h, n, s) == FieldCount(h, s, n);
      }
    } else {
      var s := h.refs[n][0];
      assert GraphOf(h).refs[n][0] in h.refs;
      assert RefCount(h, n, s) == FieldCount(h, s, n);
      assert Some(n) in multiset(h.fields[s]);
    }
  }

  /** What a store does: one slot changes and `owner` moves from one list to another. */
  ghost predicate Rewired<N>(h: Heap<N>, h': Heap<N>, owner: N, slot: nat, value: Option<N>)
    requires owner in h.fields && slot < |h.fields[owner]|
  {
    var previous := h.fields[owner][slot];
    && h'.refs.Keys == h.refs.Keys && h'.roots == h.roots
    && h'.uninitialized == h.uninitialized && h'.destroyed == h.destroyed
    && h'.fields == h.fields[owner := h.fields[owner][slot := value]]
    && (forall d, s {:trigger RefCount(h', d, s)} :: d in h.refs && s in h.refs ==>
          RefCount(h', d, s) == RefCount(h, d, s) + (if s == owner && value == Some(d) then 1 else 0)
                                                  - (if s == owner && previous == Some(d) then 1 else 0))
    && (forall d, i :: d in h.refs && 0 <= i < |h'.refs[d]| ==>
          h'.refs[d][i] in h.refs[d] || (value == Some(d) && h'.refs[d][i] == owner))
    && h'.flagged == h.flagged + (if previous.Some? && previous.value in h'.refs && h'.refs[previous.value] == []
                                     && previous.value in h.roots && h.roots[previous.value] == 0
                                  then {previous.value} else {})
  }

  /** One list, with `x` pushed, or its first `x` erased, or neither. */
  lemma ListMoves<N>(list: seq<N>, list': seq<N>, x: N, pushed: bool, erased: bool)
    requires !(pushed && erased) && (erased ==> x in list)
    requires pushed ==> list' == list + [x]
    requires erased ==> multiset(list') == multiset(list) - multiset{x}
    requires !pushed && !erased ==> list' == list
    ensures forall y :: multiset(list')[y] == multiset(list)[y] + (if pushed && y == x then 1 else 0) - (if erased && y == x then 1 else 0)
    ensures forall i :: 0 <= i < |list'| ==> list'[i] in list || (pushed && list'[i] == x)
  {
    forall i | 0 <= i < |list'| ensures list'[i] in list || (pushed && list'[i] == x) {
      assert list'[i] in multiset(list');
    }
  }

  /** `owner` is pushed onto the list of `value` and erased from that of `previous`; other lists stay. */
  ghost predicate ListMoved<N>(list: seq<N>, list': seq<N>, owner: N, d: N, value: Option<N>, previous: Option<N>) {
    && (value == Some(d) ==> list' == list + [owner])
    && (previous == Some(d) ==> owner in list && multiset(list') == multiset(list) - multiset{owner})
    && (value != Some(d) && previous != Some(d) ==> list' == list)
  }

  lemma MovedLists<N>(h: Heap<N>, h': Heap<N>, owner: N, slot: nat, value: Option<N>)
    requires Shaped(h) && owner in h.fields && slot < |h.fields[owner]| && value != h.fields[owner][slot]
    requires h' == h.(refs := h'.refs, flagged := h'.flagged, fields := h.fields[owner := h.fields[owner][slot := value]])
    requires h'.refs.Keys == h.refs.Keys
    requires forall d :: d in h.refs ==> ListMoved(h.refs[d], h'.refs[d], owner, d, value, h.fields[owner][slot])
    requires h'.flagged == h.flagged + (
      var previous := h.fields[owner][slot];
      if previous.Some? && h'.refs[previous.value] == [] && h.roots[previous.value] == 0 then {previous.value} else {})
    ensures Rewired(h, h', owner, slot, value)
  {
    forall d | d in h.refs
      ensures forall s :: s in h.refs ==>
        RefCount(h', d, s) == RefCount(h, d, s) + (if s == owner && value == Some(d) then 1 else 0)
                                                - (if s == owner && h.fields[owner][slot] == Some(d) then 1 else 0)
      ensures forall i :: 0 <= i < |h'.refs[d]| ==> h'.refs[d][i] in h.refs[d] || (value == Some(d) && h'.refs[d][i] == owner)
    {
      assert ListMoved(h.refs[d], h'.refs[d], owner, d, value, h.fields[owner][slot]);
      ListMoves(h.refs[d], h'.refs[d], owner, value == Some(d), h.fields[owner][slot] == Some(d));
    }
  }

  lemma PushAndErase<N>(refs: map<N, seq<N>>, owner: N, value: Option<N>, previous: Option<N>)
    requires value != previous && (value.Some? ==> value.value in refs)
    requires previous.Some? ==> previous.value in refs && owner in Pushed(refs, owner, value)[previous.value]
    ensures var refs' := Erased(Pushed(refs, owner, value), owner, previous);
            refs'.Keys == refs.Keys && forall d :: d in refs ==> ListMoved(refs[d], refs'[d], owner, d, value, previous)
  {
  }

  lemma SetFieldRewires<N>(h: Heap<N>, owner: N, slot: nat, value: Option<N>)
    requires Shaped(h) && owner in h.fields && slot < |h.fields[owner]| && (value.Some? ==> value.value in h.refs)
    ensures var r := SetField(h, owner, slot, value);
            r.Ok? && h.fields[owner][slot] != value ==> Rewired(h, r.value, owner, slot, value)
  {
    var r := SetField(h, owner, slot, value);
    if r.Ok? && h.fields[owner][slot] != value {
      PushAndErase(h.refs, owner, value, h.fields[owner][slot]);
      MovedLists(h, r.value, owner, slot, value);
    }
  }

  lemma RewiredShape<N>(h: Heap<N>, h': Heap<N>, owner: N, slot: nat, value: Option<N>)
    requires Shaped(h) && owner in h.fields && slot < |h.fields[owner]| && (value.Some? ==> value.value in h.refs)
    requires Rewired(h, h', owner, slot, value)
    ensures Shaped(h')
  {
    forall m, i | m in h'.refs && 0 <= i < |h'.refs[m]| ensures h'.refs[m][i] in h'.refs {
      if h'.refs[m][i] in h.refs[m] {
        var j :| 0 <= j < |h.refs[m]| && h.refs[m][j] == h'.refs[m][i];
        assert GraphOf(h).refs[m][j] in h.refs;
      }
    }
  }

  lemma RewiredBalance<N>(h: Heap<N>, h': Heap<N>, owner: N, slot: nat, value: Option<N>)
    requires Shaped(h) && Balanced(h) && Shaped(h')
    requires owner in h.fields && slot < |h.fields[owner]|
    requires Rewired(h, h', owner, slot, value)
    ensures Balanced(h')
  {
    var previous := h.fields[owner][slot];
    assert previous in multiset(h.fields[owner]);
    forall s, d | s in h'.refs && d in h'.refs
      ensures RefCount(h', d, s) == FieldCount(h', s, d)
    {
      assert RefCount(h, d, s) == FieldCount(h, s, d);
    }
  }

  /** A field's value knows that it is referenced, so the assertion in `SetField` cannot fire. */
  lemma OldValueIsAware<N>(h: Heap<N>, owner: N, slot: nat)
    requires Shaped(h) && Balanced(h)
    requires owner in h.fields && slot < |h.fields[owner]| && h.fields[owner][slot].Some?
    ensures owner in h.refs[h.fields[owner][slot].value]
  {
    var previous := h.fields[owner][slot];
    assert RefCount(h, previous.value, owner) == FieldCount(h, owner, previous.value);
    assert previous in multiset(h.fields[owner]);
  }

  lemma RewiredEffect<N>(h: Heap<N>, h': Heap<N>, owner: N, slot: nat, value: Option<N>)
    requires Shaped(h) && Balanced(h)
    requires owner in h.fields && slot < |h.fields[owner]| && (value.Some? ==> value.value in h.refs)
    requires Rewired(h, h', owner, slot, value)
    ensures Shaped(h') && Balanced(h')
    ensures var previous := h.fields[owner][slot];
            h'.flagged == h.flagged + (if previous.Some? && Forgotten(h', previous.value) then {previous.value} else {})
  {
    RewiredShape(h, h', owner, slot, value);
    RewiredBalance(h, h', owner, slot, value);
    var previous := h.fields[owner][slot];
    if previous.Some? {
      UnreferencedMeansUnheld(h', previous.value);
    }
  }

  /** Rewiring to a value that is reachable anyway, or to null, makes nothing reachable. */
  lemma RewiredKeepsGarbage<N>(h: Heap<N>, h': Heap<N>, owner: N, slot: nat, value: Option<N>)
    requires Good(h) && owner in h.fields && slot < |h.fields[owner]|
    requires value.Some? ==> value.value in h.refs && Live(h, value.value)
    requires Rewired(h, h', owner, slot, value)
    ensures Good(h') && forall n :: n in h.refs && Live(h', n) ==> Live(h, n)
  {
    RewiredEffect(h, h', owner, slot, value);
    assert GraphOf(h').roots == GraphOf(h).roots;
    RootsAreReachable(GraphOf(h));
    ReachableShrinks(GraphOf(h), GraphOf(h'));
    ForgottenIsGarbage(h');
  }

  /**
   `SetField` throws exactly when it would store a non-null value into or of a flagged object;
   otherwise it changes that one slot, keeps the references balanced and flags the old value
   exactly if no field and no root handle is left that leads to it.
   */
  lemma SetFieldEffect<N>(h: Heap<N>, owner: N, slot: nat, value: Option<N>)
    requires Shaped(h) && Balanced(h)
    requires owner in h.fields && slot < |h.fields[owner]| && (value.Some? ==> value.value in h.refs)
    ensures var r, previous := SetField(h, owner, slot, value), h.fields[owner][slot];
            && (r.Err? <==> value.Some? && value != previous && (owner in h.flagged || value.value in h.flagged))
            && (r.Ok? ==>
                  && Shaped(r.value) && Balanced(r.value)
                  && r.value.fields == h.fields[owner := h.fields[owner][slot := value]]
                  && r.value.roots == h.roots && r.value.destroyed == h.destroyed && r.value.uninitialized == h.uninitialized
                  && r.value.flagged == h.flagged + (
                       if previous != value && previous.Some? && Forgotten(r.value, previous.value)
                       then {previous.value} else {}))
  {
    var previous := h.fields[owner][slot];
    var r := SetField(h, owner, slot, value);
    SetFieldRewires(h, owner, slot, value);
    if previous.Some? {
      OldValueIsAware(h, owner, slot);
    }
    if previous == value {
      assert h.fields[owner][slot := value] == h.fields[owner];
    } else if r.Ok? {
      RewiredEffect(h, r.value, owner, slot, value);
    }
  }

  /** Storing a value that is reachable anyway, or null, makes nothing reachable. */
  lemma SetFieldKeepsGarbage<N>(h: Heap<N>, owner: N, slot: nat, value: Option<N>)
    requires Good(h)
    requires owner in h.fields && slot < |h.fields[owner]|
    requires value.Some? ==> value.value in h.refs && Live(h, value.value)
    ensures var r := SetField(h, owner, slot, value);
            r.Ok? ==> Good(r.value) && forall n :: n in h.refs && Live(r.value, n) ==> Live(h, n)
  {
    var r := SetField(h, owner, slot, value);
    SetFieldRewires(h, owner, slot, value);
    if r.Ok? && h.fields[owner][slot] != value {
      RewiredKeepsGarbage(h, r.value, owner, slot, value);
    }
  }

  lemma ForgottenIsGarbage<N>(h: Heap<N>)
    requires Shaped(h) && Balanced(h)
    ensures forall n :: n in h.refs && Forgotten(h, n) ==> !Live(h, n)
  {
    forall n | n in h.refs && Forgotten(h, n) ensures !Live(h, n) {
      UnreferencedMeansUnheld(h, n);
      RootedStep(GraphOf(h), {}, n);
    }
  }

  // ---------------------------------------------------------------- CallDestructorForObject

  /** Sets the fields of `n` from `from` on to null, one `SetField` after the other. */
  function NullFields<N(==)>(h: Heap<N>, n: N, from: nat): (h': Heap<N>)
    requires Shaped(h) && Balanced(h) && n in h.fields && from <= |h.fields[n]|
    ensures Shaped(h') && Balanced(h') && h'.fields.Keys == h.fields.Keys && h.flagged <= h'.flagged
    decreases |h.fields[n]| - from
  {
    if from == |h.fields[n]| then h
    else
      SetFieldEffect(h, n, from, None);
      NullFields(SetField(h, n, from, None).value, n, from + 1)
  }

  /** Flags `n` and sets the fields of an initialized object to null. */
  function Finalize<N(==)>(h: Heap<N>, n: N): (h': Heap<N>)
    requires Shaped(h) && Balanced(h) && n in h.refs
    ensures Shaped(h') && Balanced(h') && h'.refs.Keys == h.refs.Keys && n in h'.flagged
  {
    var marked := h.(flagged := h.flagged + {n});
    assert GraphOf(marked) == GraphOf(h);
    FlagsDoNotBalance(h, marked);
    if n in h.uninitialized then marked else NullFields(marked, n, 0)
  }

  /** `DestroyObject`: what is left is a tombstone. */
  function Destroy<N(==)>(h: Heap<N>, n: N): (h': Heap<N>)
    requires Shaped(h) && Balanced(h) && n in h.refs
    ensures Shaped(h') && Balanced(h') && h'.refs.Keys == h.refs.Keys
  {
    var finalized := Finalize(h, n);
    var h' := finalized.(destroyed := finalized.destroyed + {n});
    assert GraphOf(h') == GraphOf(finalized);
    FlagsDoNotBalance(finalized, h');
    h'
  }

  /** Balance does not depend on flags. */
  lemma FlagsDoNotBalance<N>(h: Heap<N>, h': Heap<N>)
    requires Shaped(h) && Balanced(h) && Shaped(h') && h'.refs == h.refs && h'.fields == h.fields
    ensures Balanced(h')
  {
    forall s, d | s in h'.refs && d in h'.refs ensures RefCount(h', d, s) == FieldCount(h', s, d) {
      assert RefCount(h, d, s) == FieldCount(h, s, d);
    }
  }

  /** The fields of `n` from `from` on. */
  ghost function Targets<N>(h: Heap<N>, n: N, from: nat): set<N>
    requires n in h.fields
  {
    set k | from <= k < |h.fields[n]| && h.fields[n][k].Some? :: h.fields[n][k].value
  }

  /** `h'` differs from `h` in the fields of `n` from `from` on, which are null, and in lists and flags. */
  ghost predicate Nulled<N>(h: Heap<N>, h': Heap<N>, n: N, from: nat)
    requires n in h.fields
  {
    && h'.refs.Keys == h.refs.Keys && h'.fields.Keys == h.fields.Keys && |h'.fields[n]| == |h.fields[n]|
    && (forall k :: 0 <= k < |h.fields[n]| ==> h'.fields[n][k] == if k < from then h.fields[n][k] else None)
    && (forall m :: m in h.fields && m != n ==> h'.fields[m] == h.fields[m])
    && h'.roots == h.roots && h'.uninitialized == h.uninitialized && h'.destroyed == h.destroyed
  }

  lemma {:induction false} NullFieldsNulls<N>(h: Heap<N>, n: N, from: nat)
    requires Shaped(h) && Balanced(h) && n in h.fields && from <= |h.fields[n]|
    ensures Nulled(h, NullFields(h, n, from), n, from)
    decreases |h.fields[n]| - from
  {
    if from < |h.fields[n]| {
      SetFieldEffect(h, n, from, None);
      NullFieldsNulls(SetField(h, n, from, None).value, n, from + 1);
    }
  }

  lemma NullingForgets<N>(h: Heap<N>, h': Heap<N>, n: N, from: nat, d: N)
    requires n in h.fields && d in h.roots && Nulled(h, h', n, from)
    ensures Forgotten(h, d) ==> Forgotten(h', d)
    ensures Forgotten(h', d) ==> Forgotten(h, d) || d in Targets(h, n, from)
  {
    if Forgotten(h', d) && d !in Targets(h, n, from) {
      forall s | s in h.fields ensures Some(d) !in h.fields[s] {
        assert Some(d) !in h'.fields[s];
        if s == n {
          forall k | 0 <= k < |h.fields[n]| ensures h.fields[n][k] != Some(d) {
            assert k < from ==> h'.fields[n][k] == h.fields[n][k];
            assert k >= from && h.fields[n][k].Some? ==> h.fields[n][k].value in Targets(h, n, from);
          }
        }
      }
    }
    if Forgotten(h, d) {
      forall s | s in h'.fields ensures Some(d) !in h'.fields[s] {
        assert Some(d) !in h.fields[s];
      }
    }
  }

  lemma FlagsCompose<N>(h: Heap<N>, h1: Heap<N>, h': Heap<N>, n: N, from: nat, first: Option<N>)
    requires n in h.fields && n in h1.fields && Nulled(h1, h', n, from + 1)
    requires first.Some? ==> first.value in h1.roots
    requires forall d :: d in Targets(h1, n, from + 1) ==> d in h1.roots
    requires Targets(h, n, from) == Targets(h1, n, from + 1) + if first.Some? then {first.value} else {}
    requires h1.flagged == h.flagged + if first.Some? && Forgotten(h1, first.value) then {first.value} else {}
    requires h'.flagged == h1.flagged + set d | d in Targets(h1, n, from + 1) && Forgotten(h', d)
    ensures h'.flagged == h.flagged + set d | d in Targets(h, n, from) && Forgotten(h', d)
  {
    if first.Some? {
      NullingForgets(h1, h', n, from + 1, first.value);
    }
  }

  /** One step of `NullFields`. */
  lemma ClearFieldEffect<N>(h: Heap<N>, n: N, k: nat)
    requires Shaped(h) && Balanced(h) && n in h.fields && k < |h.fields[n]|
    ensures SetField(h, n, k, None).Ok?
    ensures var h1, first := SetField(h, n, k, None).value, h.fields[n][k];
            && Shaped(h1) && Balanced(h1) && h1.fields == h.fields[n := h.fields[n][k := None]]
            && h1.flagged == h.flagged + if first.Some? && Forgotten(h1, first.value) then {first.value} else {}
  {
    SetFieldEffect(h, n, k, None);
  }

  /** Exactly those targets are flagged that nothing leads to any more once all fields are null. */
  lemma {:induction false} NullFieldsFlags<N>(h: Heap<N>, n: N, from: nat)
    requires Shaped(h) && Balanced(h) && n in h.fields && from <= |h.fields[n]|
    ensures var h' := NullFields(h, n, from);
            && Nulled(h, h', n, from)
            && (forall d :: d in Targets(h, n, from) ==> d in h.roots)
            && h'.flagged == h.flagged + set d | d in Targets(h, n, from) && Forgotten(h', d)
    decreases |h.fields[n]| - from
  {
    hide Balanced, SetField, Forgotten, WellFormed;
    NullFieldsNulls(h, n, from);
    if from < |h.fields[n]| {
      ClearFieldEffect(h, n, from);
      var h1 := SetField(h, n, from, None).value;
      NullFieldsFlags(h1, n, from + 1);
      TargetsSplit(h, h1, n, from);
      FlagsCompose(h, h1, NullFields(h1, n, from + 1), n, from, h.fields[n][from]);
    }
  }

  lemma TargetsSplit<N>(h: Heap<N>, h1: Heap<N>, n: N, from: nat)
    requires n in h.fields && from < |h.fields[n]|
    requires n in h1.fields && h1.fields[n] == h.fields[n][from := None]
    ensures Targets(h, n, from) == Targets(h1, n, from + 1) + if h.fields[n][from].Some? then {h.fields[n][from].value} else {}
  {
    forall d | d in Targets(h, n, from)
      ensures d in Targets(h1, n, from + 1) || h.fields[n][from] == Some(d)
    {
      var k :| from <= k < |h.fields[n]| && h.fields[n][k].Some? && h.fields[n][k].value == d;
      assert k > from ==> h1.fields[n][k].value in Targets(h1, n, from + 1);
    }
    forall d | d in Targets(h1, n, from + 1) ensures d in Targets(h, n, from) {
      var k :| from + 1 <= k < |h1.fields[n]| && h1.fields[n][k].Some? && h1.fields[n][k].value == d;
      assert h.fields[n][k].value in Targets(h, n, from);
    }
  }

  /**
   Destroying an initialized object leaves all its fields null and takes it out of every
   `referencedBy` list, changes no other object's fields, and flags it and exactly those of
   its targets that no field and no root handle leads to any more.
   */
  lemma DestroyEffect<N>(h: Heap<N>, n: N)
    requires Shaped(h) && Balanced(h) && n in h.refs && n !in h.uninitialized
    ensures var h' := Destroy(h, n);
            && |h'.fields[n]| == |h.fields[n]| && (forall k :: 0 <= k < |h.fields[n]| ==> h'.fields[n][k] == None)
            && (forall m :: m in h.fields && m != n ==> h'.fields[m] == h.fields[m])
            && (forall d :: d in h.refs ==> n !in h'.refs[d])
            && (forall s, d :: s in h.refs && d in h.refs && s != n ==> RefCount(h', d, s) == RefCount(h, d, s))
            && h'.roots == h.roots && h'.uninitialized == h.uninitialized && h'.destroyed == h.destroyed + {n}
            && h'.flagged == h.flagged + {n} + set d | d in Targets(h, n, 0) && Forgotten(h', d)
  {
    var marked := h.(flagged := h.flagged + {n});
    assert GraphOf(marked) == GraphOf(h);
    FlagsDoNotBalance(h, marked);
    NullFieldsNulls(marked, n, 0);
    NullFieldsFlags(marked, n, 0);
    var nulled := NullFields(marked, n, 0);
    var h' := Destroy(h, n);
    assert forall d :: d in h.roots ==> (Forgotten(nulled, d) <==> Forgotten(h', d));
    forall d | d in h.refs ensures n !in h'.refs[d] {
      assert Some(d) !in h'.fields[n];
      assert RefCount(h', d, n) == FieldCount(h', n, d);
    }
    forall s, d | s in h.refs && d in h.refs && s != n ensures RefCount(h', d, s) == RefCount(h, d, s) {
      assert RefCount(h, d, s) == FieldCount(h, s, d);
      assert RefCount(h', d, s) == FieldCount(h', s, d);
    }
  }

  // ---------------------------------------------------------------- destructions that never return

  /**
   Before a field is set to null the destruction waits until it gets the write lock of the
   target. It has the lock of its own object, the lock of a destroyed object is never released,
   and no lock is re-entrant: for such targets the wait never ends, nor does it for an object in
   `held`, whose lock the very thread that waits has taken for a pin.
   */
  ghost predicate WaitsFrom<N>(h: Heap<N>, n: N, held: set<N>, from: nat)
    requires n in h.fields
  {
    exists t :: t in Targets(h, n, from) && (t == n || t in h.destroyed || t in held)
  }

  /** Destroying `n` never returns. */
  ghost predicate Waits<N>(h: Heap<N>, n: N, held: set<N>)
    requires n in h.fields
  {
    n !in h.uninitialized && WaitsFrom(h, n, held, 0)
  }

  lemma FlagsDoNotWait<N>(h: Heap<N>, h': Heap<N>, n: N, held: set<N>)
    requires n in h.fields && h'.fields == h.fields && h'.uninitialized == h.uninitialized && h'.destroyed == h.destroyed
    ensures Waits(h', n, held) <==> Waits(h, n, held)
  {
    assert Targets(h', n, 0) == Targets(h, n, 0);
  }

  lemma NothingLeft<N>(h: Heap<N>, n: N, held: set<N>, from: nat)
    requires n in h.fields && from == |h.fields[n]|
    ensures !WaitsFrom(h, n, held, from)
  {
  }

  /** The wait for one field, and for those behind it. */
  lemma WaitsStep<N>(h: Heap<N>, n: N, held: set<N>, from: nat)
    requires Shaped(h) && Balanced(h) && n in h.fields && from < |h.fields[n]|
    ensures SetField(h, n, from, None).Ok? && n in SetField(h, n, from, None).value.fields
    ensures var first, h1 := h.fields[n][from], SetField(h, n, from, None).value;
            WaitsFrom(h, n, held, from) <==>
              || (first.Some? && (first.value == n || first.value in h.destroyed || first.value in held))
              || WaitsFrom(h1, n, held, from + 1)
  {
    hide Shaped, Balanced, SetField, Targets;
    SetFieldEffect(h, n, from, None);
    var h1 := SetField(h, n, from, None).value;
    TargetsSplit(h, h1, n, from);
  }

  // ---------------------------------------------------------------- objects whose bytes stay behind

  /**
   Relocation leaves the bytes of `n` behind although its fields matter: those of an object of
   which the initialization failed, as it will still be destroyed like any other, and those that
   were set before initialization.
   */
  ghost predicate Fragile<N>(h: Heap<N>, failed: set<N>, n: N) {
    n in h.fields && if n in h.uninitialized then Targets(h, n, 0) != {} else n in failed && h.fields[n] != []
  }

  /** The fields of `n` are those found at some other place. */
  function WithFields<N>(h: Heap<N>, n: N, found: seq<Option<N>>): Heap<N> {
    h.(fields := h.fields[n := found])
  }

  /** Only objects of `lost` have other fields than before. */
  ghost predicate Disturbed<N>(h: Heap<N>, h': Heap<N>, lost: set<N>) {
    && h' == h.(fields := h'.fields) && h'.fields.Keys == h.fields.Keys
    && forall n :: n in h.fields && n !in lost ==> h'.fields[n] == h.fields[n]
  }

  lemma NoneDisturbed<N>(h: Heap<N>)
    ensures Disturbed(h, h, {}) && forall h' :: Disturbed(h, h', {}) ==> h' == h
  {
    forall h' | Disturbed(h, h', {}) ensures h' == h {
      assert h'.fields == h.fields;
    }
  }

  lemma DisturbedOnce<N>(h: Heap<N>, h': Heap<N>, lost: set<N>, n: N, found: seq<Option<N>>)
    requires Disturbed(h, h', lost) && n in h.fields
    ensures Disturbed(h, WithFields(h', n, found), lost + {n})
  {
  }

  ghost predicate StillBalanced<N>(h: Heap<N>, n: N, found: seq<Option<N>>) {
    Shaped(WithFields(h, n, found)) && Balanced(WithFields(h, n, found))
  }

  /** Whatever objects the fields of `n` lead to after a move, counts are right. */
  ghost predicate NeverUnbalanced<N(!new)>(h: Heap<N>, n: N)
    requires n in h.fields
  {
    forall found: seq<Option<N>> :: |found| == |h.fields[n]| && (forall k :: 0 <= k < |found| && found[k].Some? ==> found[k].value in h.refs) ==>
      StillBalanced(h, n, found)
  }

  /** Counts stay right if and only if the new place happens to hold each object as often. */
  lemma BalancedIffSameCounts<N>(h: Heap<N>, n: N, found: seq<Option<N>>)
    requires Shaped(h) && Balanced(h) && n in h.fields
    requires forall k :: 0 <= k < |found| && found[k].Some? ==> found[k].value in h.refs
    ensures StillBalanced(h, n, found) <==> forall d :: d in h.refs ==> multiset(found)[Some(d)] == multiset(h.fields[n])[Some(d)]
  {
    var h' := WithFields(h, n, found);
    assert GraphOf(h') == GraphOf(h);
    assert Shaped(h');
    if Balanced(h') {
      forall d | d in h.refs ensures multiset(found)[Some(d)] == multiset(h.fields[n])[Some(d)] {
        assert RefCount(h', d, n) == FieldCount(h', n, d) && RefCount(h, d, n) == FieldCount(h, n, d);
      }
    }
    if forall d :: d in h.refs ==> multiset(found)[Some(d)] == multiset(h.fields[n])[Some(d)] {
      forall s, d | s in h.refs && d in h.refs ensures RefCount(h', d, s) == FieldCount(h', s, d) {
        assert RefCount(h, d, s) == FieldCount(h, s, d);
      }
    }
  }

  /** Only of an object without fields it is certain. */
  lemma NeverUnbalancedIff<N(!new)>(h: Heap<N>, n: N)
    requires Shaped(h) && Balanced(h) && n in h.fields
    ensures NeverUnbalanced(h, n) <==> h.fields[n] == []
  {
    hide Shaped, Balanced, StillBalanced;
    ShapedKeys(h);
    var size := |h.fields[n]|;
    var none: seq<Option<N>> := seq(size, k => None);
    var itself: seq<Option<N>> := seq(size, k => Some(n));
    if size > 0 {
      BalancedIffSameCounts(h, n, none);
      BalancedIffSameCounts(h, n, itself);
      assert Some(n) !in none && itself[0] == Some(n);
      assert !(StillBalanced(h, n, none) && StillBalanced(h, n, itself));
    } else {
      forall found: seq<Option<N>> | |found| == 0 ensures StillBalanced(h, n, found) {
        BalancedIffSameCounts(h, n, found);
        assert found == h.fields[n];
      }
    }
  }

  /** The array `a` failed to be initialized after an element of it had come to hold `x`. */
  function HalfMade(): Heap<char> {
    Heap(map['a' := [], 'x' := ['a']], map['a' := [Some('x'), None], 'x' := []], map['a' := 1, 'x' := 0], {}, {}, {})
  }

  /** If zeros lie at its new place, `x` still lists it, and no longer rightly so. */
  lemma HalfMadeExample()
    ensures Shaped(HalfMade()) && Balanced(HalfMade()) && Fragile(HalfMade(), {'a'}, 'a')
    ensures !StillBalanced(HalfMade(), 'a', [None, None])
  {
    HalfMadeIsBalanced();
    hide Shaped, Balanced, StillBalanced;
    BalancedIffSameCounts(HalfMade(), 'a', [None, None]);
    assert HalfMade().fields['a'][0] == Some('x') && Some('x') !in [None, None];
  }

  lemma HalfMadeIsBalanced()
    ensures Shaped(HalfMade()) && Balanced(HalfMade())
  {
    var h := HalfMade();
    assert Shaped(h);
    forall s, d | s in h.refs && d in h.refs ensures RefCount(h, d, s) == FieldCount(h, s, d) {
      if s == 'a' {
      } else {
        assert s == 'x';
      }
    }
  }

  lemma ShapedKeys<N>(h: Heap<N>)
    requires Shaped(h)
    ensures h.fields.Keys == h.refs.Keys
  {
  }

  // ---------------------------------------------------------------- new objects

  /** `RegisterObject`: a new handle with one root reference, zeroed fields and no references. */
  function Register<N>(h: Heap<N>, n: N, fieldCount: nat): Heap<N> {
    h.(refs := h.refs[n := []], fields := h.fields[n := seq(fieldCount, i => None)],
       roots := h.roots[n := 1], uninitialized := h.uninitialized + {n})
  }

  lemma RegisterAccounts<N>(h: Heap<N>, n: N, fieldCount: nat)
    requires Shaped(h) && n !in h.refs
    ensures n !in h.destroyed && Register(h, n, fieldCount).destroyed == h.destroyed
  {
  }

  lemma RegisterKeepsBalance<N>(h: Heap<N>, n: N, fieldCount: nat)
    requires Shaped(h) && Balanced(h) && n !in h.refs
    ensures Shaped(Register(h, n, fieldCount)) && Balanced(Register(h, n, fieldCount))
  {
    var h' := Register(h, n, fieldCount);
    var g := GraphOf(h);
    forall s, d | s in h'.refs && d in h'.refs ensures RefCount(h', d, s) == FieldCount(h', s, d) {
      if s == n {
        assert Some(d) !in h'.fields[s];
        assert d in h.refs ==> forall i :: 0 <= i < |g.refs[d]| ==> g.refs[d][i] in h.refs;
      } else if d == n {
        forall k | 0 <= k < |h.fields[s]| ensures h.fields[s][k] != Some(n) {
        }
      } else {
        assert RefCount(h, d, s) == FieldCount(h, s, d);
      }
    }
  }

  /** Adding an isolated root changes nothing about which of the old objects are reachable. */
  lemma NewcomerReachesNothing<N>(g: Graph<N>, g': Graph<N>, n: N)
    requires WellFormed(g) && WellFormed(g') && n !in g.refs
    requires g'.refs == g.refs[n := []] && g'.roots == g.roots + {n}
    ensures forall m :: m in g.refs ==> (Reachable(g', m) <==> Reachable(g, m))
  {
    RootsAreReachable(g');
    ReachableShrinks(g', g);
    var barrier := set m | m in g.refs && !Reachable(g, m);
    forall m | m in barrier
      ensures m !in g'.roots && forall i :: 0 <= i < |g'.refs[m]| ==> g'.refs[m][i] in barrier
    {
      RootedStep(g, {}, m);
    }
    Barrier(g', {}, barrier);
  }

  lemma NewcomerTiesNothing<N>(g: Graph<N>, g': Graph<N>, n: N)
    requires WellFormed(g) && WellFormed(g') && n !in g.refs && NoLiveCycle(g)
    requires g'.refs == g.refs[n := []] && g'.roots == g.roots + {n}
    ensures NoLiveCycle(g')
  {
    NewcomerReachesNothing(g, g', n);
    forall knot | knot <= g'.refs.Keys && Knot(g', knot) ensures false {
      forall m | m in knot ensures HeldBy(g, m, knot) {
        assert HeldBy(g', m, knot);
      }
      assert Knot(g, knot);
    }
  }

  /** A new object makes nothing else reachable or unreachable, and closes no cycle. */
  lemma RegisterKeepsGood<N>(h: Heap<N>, n: N, fieldCount: nat)
    requires Good(h) && n !in h.refs
    ensures var h' := Register(h, n, fieldCount);
            && Good(h') && (NoLiveCycle(GraphOf(h)) ==> NoLiveCycle(GraphOf(h')))
            && (forall m :: m in h.refs ==> (Live(h', m) <==> Live(h, m)))
  {
    var h' := Register(h, n, fieldCount);
    RegisterKeepsBalance(h, n, fieldCount);
    NewcomerReachesNothing(GraphOf(h), GraphOf(h'), n);
    if NoLiveCycle(GraphOf(h)) {
      NewcomerTiesNothing(GraphOf(h), GraphOf(h'), n);
    }
  }
}
