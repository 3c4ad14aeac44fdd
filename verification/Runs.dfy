/**
 Whole runs: a client that allocates, copies, stores and drops handles, interleaved with
 collections, and what holds in every state it can reach.
 */
module Runs {
  import opened Wrappers
  import opened References
  import opened Objects
  import opened Collection

  // ---------------------------------------------------------------- handles

  datatype Role = InternalInitialization | Field | Root | RoPin | RwPin

  datatype CopyError = UseSetField | OnlyForInitialization | InvalidCopy | WrongInitialCount

  /** `internal::Copy`: the root count moves with the roles of the two handles. */
  function Copy<N>(h: Heap<N>, n: N, source: Role, target: Role): Result<Heap<N>, CopyError>
    requires n in h.roots
  {
    if target.Field? then Err(UseSetField)
    else
      match source
      case InternalInitialization =>
        if !target.Root? then Err(OnlyForInitialization)
        else if h.roots[n] != 1 then Err(WrongInitialCount)
        else Ok(h)
      case Root | Field =>
        if target.InternalInitialization? then Ok(h) else Ok(h.(roots := h.roots[n := h.roots[n] + 1]))
      case RoPin | RwPin =>
        if target.InternalInitialization? then Ok(h)
        else if target.Root? then Ok(h.(roots := h.roots[n := h.roots[n] + 1]))
        else Err(InvalidCopy)
  }

  /**
   `internal::Destroy` of a root or pin handle. `upgraded` tells whether the read lock could be
   upgraded, without which the flag is left to the collector.
   */
  function Drop<N>(h: Heap<N>, n: N, upgraded: bool): Heap<N>
    requires n in h.roots && n in h.refs && h.roots[n] > 0
  {
    var dropped := h.(roots := h.roots[n := h.roots[n] - 1]);
    if h.roots[n] == 1 && h.refs[n] == [] && upgraded then dropped.(flagged := h.flagged + {n}) else dropped
  }

  /**
   Which copies are refused, and what the others do: a new root handle or pin counts once, but for
   the first root handle, which takes over the count that the object starts with.
   */
  lemma CopyCounts<N>(h: Heap<N>, n: N, source: Role, target: Role)
    requires n in h.roots
    ensures var r, pinned := Copy(h, n, source, target), source.RoPin? || source.RwPin?;
            && (r.Err? <==>
                  || target.Field? || (pinned && (target.RoPin? || target.RwPin?))
                  || (source.InternalInitialization? && (!target.Root? || h.roots[n] != 1)))
            && (r.Ok? ==>
                  && r.value == h.(roots := r.value.roots) && r.value.roots.Keys == h.roots.Keys
                  && (forall m :: m in h.roots && m != n ==> r.value.roots[m] == h.roots[m])
                  && r.value.roots[n] == h.roots[n] + (if source.InternalInitialization? || target.InternalInitialization? then 0 else 1))
  {
  }

  /**
   Dropping a handle counts down; it flags the object if and only if that was the last one, no
   field holds the object, and the upgrade succeeded. Nothing else changes.
   */
  lemma DropCounts<N>(h: Heap<N>, n: N, upgraded: bool)
    requires Shaped(h) && Balanced(h) && n in h.refs && h.roots[n] > 0
    ensures var h' := Drop(h, n, upgraded);
            && h' == h.(roots := h'.roots, flagged := h'.flagged) && h'.roots.Keys == h.roots.Keys
            && h'.roots[n] == h.roots[n] - 1 && (forall m :: m in h.roots && m != n ==> h'.roots[m] == h.roots[m])
            && h'.flagged == h.flagged + if upgraded && Forgotten(h', n) then {n} else {}
  {
    UnreferencedMeansUnheld(h, n);
  }

  // ---------------------------------------------------------------- runs

  /** How many handles of each role clients hold to one object. */
  datatype Handles = Handles(initial: nat, roots: nat, roPins: nat, rwPins: nat) {
    function Total(): nat {
      initial + roots + roPins + rwPins
    }

    function Count(role: Role): nat {
      match role
      case InternalInitialization => initial
      case Field => 0
      case Root => roots
      case RoPin => roPins
      case RwPin => rwPins
    }

    function Gain(role: Role): (r: Handles)
      ensures r.Total() == Total() + if role.Field? then 0 else 1
    {
      match role
      case InternalInitialization => this.(initial := initial + 1)
      case Field => this
      case Root => this.(roots := roots + 1)
      case RoPin => this.(roPins := roPins + 1)
      case RwPin => this.(rwPins := rwPins + 1)
    }

    function Lose(role: Role): (r: Handles)
      requires Count(role) > 0
      ensures r.Total() == Total() - 1
    {
      match role
      case InternalInitialization => this.(initial := initial - 1)
      case Root => this.(roots := roots - 1)
      case RoPin => this.(roPins := roPins - 1)
      case RwPin => this.(rwPins := rwPins - 1)
    }
  }

  /** A heap together with the handles its clients hold. */
  datatype State<N> = State(heap: Heap<N>, held: map<N, Handles>)

  ghost predicate Holds<N>(s: State<N>, n: N, role: Role) {
    n in s.held && s.held[n].Count(role) > 0
  }

  datatype Action<N> =
    | NewObject(n: N, fieldCount: nat)
    | CopyHandle(n: N, source: Role, target: Role)
    | DropHandle(n: N, role: Role, upgraded: bool)
    | Initialize(n: N)
    | Store(owner: N, slot: nat, value: Option<N>)
    | Collect(n: N, locks: nat -> bool, clock: nat)
    | CollectFast(n: N)

  ghost predicate Pinned<N>(s: State<N>, n: N) {
    Holds(s, n, RoPin) || Holds(s, n, RwPin)
  }

  /** Clients learn of objects through the handles they hold and the fields of what they pinned. */
  ghost predicate CanRead<N>(s: State<N>, n: N) {
    exists owner, slot :: owner in s.heap.fields && 0 <= slot < |s.heap.fields[owner]|
      && Pinned(s, owner) && s.heap.fields[owner][slot] == Some(n)
  }

  ghost predicate CanName<N>(s: State<N>, n: N) {
    Holds(s, n, InternalInitialization) || Holds(s, n, Root) || Pinned(s, n) || CanRead(s, n)
  }

  /**
   What a client may do with what it has, and when the collector may inspect an object: always
   if no live cycle exists, and otherwise if the object is flagged or turns out to have no root.
   The fast pass over large objects goes by the flag alone.
   */
  ghost predicate Enabled<N>(s: State<N>, a: Action<N>)
    requires Shaped(s.heap)
  {
    match a
    case NewObject(n, _) => n !in s.heap.refs
    case CopyHandle(n, source, target) =>
      n in s.heap.refs && !target.InternalInitialization?
      && if source.Field? then CanRead(s, n) else Holds(s, n, source)
    case DropHandle(n, role, _) => n in s.heap.refs && (role.Root? || role.RoPin? || role.RwPin?) && Holds(s, n, role)
    case Initialize(n) => n in s.heap.refs
    case Store(owner, slot, value) =>
      && owner in s.heap.fields && slot < |s.heap.fields[owner]| && Holds(s, owner, RwPin)
      && (value.Some? ==> value.value in s.heap.refs && CanName(s, value.value))
    case Collect(n, locks, clock) =>
      && n in s.heap.refs && n !in s.heap.destroyed
      && (|| NoLiveCycle(GraphOf(s.heap)) || n in s.heap.flagged
          || !Search(GraphOf(s.heap), s.heap.flagged, {}, n, locks, clock + 2).found)
    case CollectFast(n) => n in s.heap.refs && n !in s.heap.destroyed && n in s.heap.flagged
  }

  /** The root count of every object is the number of handles that clients hold to it. */
  ghost predicate Counted<N>(s: State<N>) {
    && s.held.Keys == s.heap.roots.Keys
    && forall n :: n in s.held ==> s.heap.roots[n] == s.held[n].Total()
  }

  ghost predicate Invariant<N>(s: State<N>) {
    Good(s.heap) && Counted(s)
  }

  /** The state after an enabled action; an action that throws changes nothing. */
  ghost function Apply<N>(s: State<N>, a: Action<N>): State<N>
    requires Invariant(s) && Enabled(s, a)
  {
    match a
    case NewObject(n, fieldCount) => State(Register(s.heap, n, fieldCount), s.held[n := Handles(1, 0, 0, 0)])
    case CopyHandle(n, source, target) =>
      var r := Copy(s.heap, n, source, target);
      if r.Err? then s
      else if source.InternalInitialization? then s.(held := s.held[n := s.held[n].Lose(source).Gain(target)])
      else State(r.value, s.held[n := s.held[n].Gain(target)])
    case DropHandle(n, role, upgraded) =>
      State(Drop(s.heap, n, upgraded), s.held[n := s.held[n].Lose(role)])
    case Initialize(n) => s.(heap := s.heap.(uninitialized := s.heap.uninitialized - {n}))
    case Store(owner, slot, value) =>
      var r := SetField(s.heap, owner, slot, value);
      if r.Err? then s else s.(heap := r.value)
    case Collect(n, locks, clock) => s.(heap := Inspect(s.heap, n, locks, clock).heap)
    case CollectFast(n) => s.(heap := Destroy(s.heap, n))
  }

  /** Nothing is forgotten: objects stay, flags stay, tombstones stay. */
  ghost predicate Aged<N>(h: Heap<N>, h': Heap<N>) {
    h.refs.Keys <= h'.refs.Keys && h.flagged <= h'.flagged && h.destroyed <= h'.destroyed
  }

  lemma RootIsLive<N>(h: Heap<N>, n: N)
    requires Shaped(h) && n in h.roots && h.roots[n] > 0
    ensures Live(h, n)
  {
    RootedStep(GraphOf(h), {}, n);
  }

  /** Whatever a client can name is reachable. */
  lemma NamedIsLive<N>(s: State<N>, n: N)
    requires Invariant(s) && n in s.heap.refs && CanName(s, n)
    ensures Live(s.heap, n)
  {
    if s.heap.roots[n] > 0 {
      RootIsLive(s.heap, n);
    } else {
      var owner, slot :| owner in s.heap.fields && 0 <= slot < |s.heap.fields[owner]|
        && Pinned(s, owner) && s.heap.fields[owner][slot] == Some(n);
      RootIsLive(s.heap, owner);
      FieldOfLiveIsLive(s.heap, owner, slot);
    }
  }

  lemma FieldOfLiveIsLive<N>(h: Heap<N>, owner: N, slot: nat)
    requires Shaped(h) && Balanced(h) && owner in h.fields && slot < |h.fields[owner]| && h.fields[owner][slot].Some?
    requires Live(h, owner)
    ensures Live(h, h.fields[owner][slot].value)
  {
    var d := h.fields[owner][slot].value;
    OldValueIsAware(h, owner, slot);
    var i :| 0 <= i < |h.refs[d]| && h.refs[d][i] == owner;
    ReachableStep(GraphOf(h), d, i);
  }

  // ---------------------------------------------------------------- one action

  /** Changing the root count of an object that stays or was reachable. */
  lemma RootCountKeepsGood<N>(h: Heap<N>, h': Heap<N>, n: N)
    requires Good(h) && n in h.roots && h' == h.(roots := h'.roots, flagged := h'.flagged) && h'.roots.Keys == h.roots.Keys
    requires Live(h, n) || h'.roots[n] == 0
    requires forall m :: m in h.roots && m != n ==> h'.roots[m] == h.roots[m]
    requires h'.flagged == h.flagged || (h'.flagged == h.flagged + {n} && h.refs[n] == [] && h'.roots[n] == 0)
    ensures Good(h')
  {
    FlagsDoNotBalance(h, h');
    RootsAreReachable(GraphOf(h));
    ReachableShrinks(GraphOf(h), GraphOf(h'));
    RootedStep(GraphOf(h'), {}, n);
  }

  lemma CopyKeepsInvariant<N>(s: State<N>, n: N, source: Role, target: Role)
    requires Invariant(s) && Enabled(s, CopyHandle(n, source, target))
    ensures var s' := Apply(s, CopyHandle(n, source, target)); Invariant(s') && Aged(s.heap, s'.heap)
  {
    var s' := Apply(s, CopyHandle(n, source, target));
    NamedIsLive(s, n);
    if s'.heap != s.heap {
      RootCountKeepsGood(s.heap, s'.heap, n);
    }
  }

  lemma DropKeepsInvariant<N>(s: State<N>, n: N, role: Role, upgraded: bool)
    requires Invariant(s) && Enabled(s, DropHandle(n, role, upgraded))
    ensures var s' := Apply(s, DropHandle(n, role, upgraded)); Invariant(s') && Aged(s.heap, s'.heap)
  {
    var s' := Apply(s, DropHandle(n, role, upgraded));
    NamedIsLive(s, n);
    RootCountKeepsGood(s.heap, s'.heap, n);
  }

  lemma NewObjectKeepsInvariant<N>(s: State<N>, n: N, fieldCount: nat)
    requires Invariant(s) && Enabled(s, NewObject(n, fieldCount))
    ensures var s' := Apply(s, NewObject(n, fieldCount)); Invariant(s') && Aged(s.heap, s'.heap)
  {
    RegisterKeepsGood(s.heap, n, fieldCount);
  }

  lemma StoreKeepsInvariant<N>(s: State<N>, owner: N, slot: nat, value: Option<N>)
    requires Invariant(s) && Enabled(s, Store(owner, slot, value))
    ensures var s' := Apply(s, Store(owner, slot, value)); Invariant(s') && Aged(s.heap, s'.heap)
  {
    if value.Some? {
      NamedIsLive(s, value.value);
    }
    SetFieldKeepsGarbage(s.heap, owner, slot, value);
    SetFieldEffect(s.heap, owner, slot, value);
  }

  lemma CollectKeepsInvariant<N>(s: State<N>, n: N, locks: nat -> bool, clock: nat)
    requires Invariant(s) && Enabled(s, Collect(n, locks, clock))
    ensures var s' := Apply(s, Collect(n, locks, clock)); Invariant(s') && Aged(s.heap, s'.heap)
  {
    InspectIsExact(s.heap, n, locks, clock);
    InspectAccounts(s.heap, n, locks, clock);
  }

  lemma StepKeepsInvariant<N>(s: State<N>, a: Action<N>)
    requires Invariant(s) && Enabled(s, a)
    ensures Invariant(Apply(s, a)) && Aged(s.heap, Apply(s, a).heap)
  {
    match a
    case NewObject(n, fieldCount) => NewObjectKeepsInvariant(s, n, fieldCount);
    case CopyHandle(n, source, target) => CopyKeepsInvariant(s, n, source, target);
    case DropHandle(n, role, upgraded) => DropKeepsInvariant(s, n, role, upgraded);
    case Initialize(n) =>
      var h' := Apply(s, a).heap;
      assert GraphOf(h') == GraphOf(s.heap);
      FlagsDoNotBalance(s.heap, h');
    case Store(owner, slot, value) => StoreKeepsInvariant(s, owner, slot, value);
    case Collect(n, locks, clock) => CollectKeepsInvariant(s, n, locks, clock);
    case CollectFast(n) =>
      DestroyingGarbage(s.heap, n);
      DestroyAccounts(s.heap, n);
  }

  // ---------------------------------------------------------------- all runs

  ghost function Nothing<N>(): State<N> {
    State(Heap(map[], map[], map[], {}, {}, {}), map[])
  }

  /** The state after a run of actions, if each of them is enabled when its turn comes. */
  ghost function After<N>(actions: seq<Action<N>>): (r: Option<State<N>>)
    ensures r.Some? ==> Invariant(r.value)
  {
    if actions == [] then Some(Nothing())
    else
      var before := After(actions[..|actions| - 1]);
      var a := actions[|actions| - 1];
      if before.None? || !Enabled(before.value, a) then None
      else
        StepKeepsInvariant(before.value, a);
        Some(Apply(before.value, a))
  }

  lemma {:induction false} RunsAge<N>(actions: seq<Action<N>>, more: seq<Action<N>>)
    requires After(actions + more).Some?
    ensures After(actions).Some? && Aged(After(actions).value.heap, After(actions + more).value.heap)
    decreases |more|
  {
    if more == [] {
      assert actions + more == actions;
    } else {
      var shorter := more[..|more| - 1];
      assert (actions + more)[..|actions + more| - 1] == actions + shorter;
      RunsAge(actions, shorter);
      StepKeepsInvariant(After(actions + shorter).value, more[|more| - 1]);
    }
  }

  /** A heap is safe when nothing reachable is flagged or destroyed, nor holds anything that is. */
  ghost predicate Safe<N>(h: Heap<N>)
    requires Shaped(h)
  {
    && (forall n :: n in h.refs && Live(h, n) ==> n !in h.flagged && n !in h.destroyed)
    && (forall n, k :: n in h.fields && Live(h, n) && 0 <= k < |h.fields[n]| && h.fields[n][k].Some? ==>
          Live(h, h.fields[n][k].value) && h.fields[n][k].value !in h.flagged + h.destroyed)
  }

  /**
   In every state of every run, reachable objects are neither flagged nor destroyed and hold
   nothing that is, and every root count is the number of handles held; what was flagged in an
   earlier state of the run is unreachable for good.
   */
  lemma RunsAreSafe<N>(actions: seq<Action<N>>, more: seq<Action<N>>)
    requires After(actions + more).Some?
    ensures After(actions).Some?
    ensures var early, late := After(actions).value.heap, After(actions + more).value;
            && Safe(late.heap)
            && Counted(late)
            && (forall n :: n in early.flagged ==> n in late.heap.flagged && !Live(late.heap, n))
  {
    RunsAge(actions, more);
    var h := After(actions + more).value.heap;
    forall n, k | n in h.fields && Live(h, n) && 0 <= k < |h.fields[n]| && h.fields[n][k].Some?
      ensures Live(h, h.fields[n][k].value) && h.fields[n][k].value !in h.flagged + h.destroyed
    {
      FieldOfLiveIsLive(h, n, k);
    }
  }

  // ---------------------------------------------------------------- a run into a live cycle

  /** Some run ends in that state. */
  ghost predicate Reached<N(!new)>(s: State<N>) {
    exists actions :: After(actions) == Some(s)
  }

  lemma OneMore<N(!new)>(s: State<N>, a: Action<N>)
    requires Reached(s)
    ensures Invariant(s) && (Enabled(s, a) ==> Reached(Apply(s, a)))
  {
    var actions :| After(actions) == Some(s);
    if Enabled(s, a) {
      assert (actions + [a])[..|actions|] == actions;
      assert After(actions + [a]) == Some(Apply(s, a));
    }
  }

  lemma ReachedIsGood<N(!new)>(s: State<N>)
    requires Reached(s)
    ensures Good(s.heap)
  {
  }

  lemma ReachedIsShaped<N(!new)>(s: State<N>, n: N)
    requires Reached(s)
    ensures Shaped(s.heap) && (n in s.heap.refs <==> n in s.heap.roots) && (n in s.heap.refs <==> n in s.held)
    ensures n in s.heap.refs ==> s.heap.roots[n] == s.held[n].Total()
  {
    var actions :| After(actions) == Some(s);
    hide After, Balanced, FlagsSound, Live;
  }

  /** The handle for initialization becomes a root handle. */
  lemma Converts(s: State<char>, n: char)
    requires Reached(s) && n in s.heap.refs && n in s.held && s.held[n] == Handles(1, 0, 0, 0)
    ensures Reached(s.(held := s.held[n := Handles(0, 1, 0, 0)]))
  {
    hide Reached, Good, Handles.Lose, Handles.Gain;
    ReachedIsShaped(s, n);
    CopyToRoot(s.heap, n);
    Converted(s.held[n]);
    OneMore(s, CopyHandle(n, InternalInitialization, Root));
  }

  lemma LoseInitial(h: Handles)
    requires h == Handles(1, 0, 0, 0)
    ensures h.Lose(InternalInitialization) == Handles(0, 0, 0, 0)
  {
  }

  lemma GainRoot(h: Handles)
    requires h == Handles(0, 0, 0, 0)
    ensures h.Gain(Root) == Handles(0, 1, 0, 0)
  {
  }

  lemma Converted(h: Handles)
    requires h == Handles(1, 0, 0, 0)
    ensures h.Lose(InternalInitialization).Gain(Root) == Handles(0, 1, 0, 0)
  {
    hide Handles.Lose, Handles.Gain, Handles.Total;
    LoseInitial(h);
    GainRoot(h.Lose(InternalInitialization));
  }

  lemma CopyToRoot(h: Heap<char>, n: char)
    requires n in h.roots && h.roots[n] == 1
    ensures Copy(h, n, InternalInitialization, Root) == Ok(h)
  {
  }

  lemma Pins(s: State<char>, n: char)
    requires Reached(s) && n in s.heap.refs && n in s.heap.roots && n in s.held && s.held[n] == Handles(0, 1, 0, 0)
    ensures Reached(State(s.heap.(roots := s.heap.roots[n := 2]), s.held[n := Handles(0, 1, 0, 1)]))
  {
    hide Reached, Good;
    ReachedIsShaped(s, n);
    OneMore(s, CopyHandle(n, Root, RwPin));
  }

  lemma OneDropped(s: State<char>, n: char, role: Role)
    requires Reached(s) && n in s.heap.refs && s.heap.refs[n] != [] && n in s.heap.roots && s.heap.roots[n] > 0
    requires n in s.held && s.held[n].Count(role) > 0 && (role.Root? || role.RwPin?)
    ensures Reached(State(s.heap.(roots := s.heap.roots[n := s.heap.roots[n] - 1]), s.held[n := s.held[n].Lose(role)]))
  {
    hide Reached, Good;
    ReachedIsShaped(s, n);
    OneMore(s, DropHandle(n, role, true));
  }

  /** An initialized object with one field, which its client holds by a root handle and a read-write pin. */
  ghost function Arrived(s: State<char>, n: char): State<char> {
    State(s.heap.(refs := s.heap.refs[n := []], fields := s.heap.fields[n := [None]], roots := s.heap.roots[n := 2]),
          s.held[n := Handles(0, 1, 0, 1)])
  }

  lemma Arrives(s: State<char>, n: char)
    requires Reached(s) && n !in s.heap.refs
    ensures Reached(Arrived(s, n))
  {
    hide Reached, Shaped, Register;
    ReachedIsShaped(s, n);
    var s1 := State(Register(s.heap, n, 1), s.held[n := Handles(1, 0, 0, 0)]);
    assert Reached(s1) by {
      OneMore(s, NewObject(n, 1));
    }
    var s2 := s1.(held := s1.held[n := Handles(0, 1, 0, 0)]);
    assert Reached(s2) by {
      Named(s, n);
      Converts(s1, n);
    }
    var s3 := State(s2.heap.(roots := s2.heap.roots[n := 2]), s2.held[n := Handles(0, 1, 0, 1)]);
    assert Reached(s3) by {
      Named(s, n);
      Pins(s2, n);
    }
    assert Reached(s3.(heap := s3.heap.(uninitialized := s3.heap.uninitialized - {n}))) by {
      Named(s, n);
      OneMore(s3, Initialize(n));
    }
    ArrivedIs(s, s3, n);
  }

  lemma Named(s: State<char>, n: char)
    ensures var h := Register(s.heap, n, 1); n in h.refs && n in h.roots && h.roots[n] == 1
  {
  }

  lemma ArrivedIs(s: State<char>, s3: State<char>, n: char)
    requires Shaped(s.heap) && n !in s.heap.refs && s3.held == s.held[n := Handles(1, 0, 0, 0)][n := Handles(0, 1, 0, 0)][n := Handles(0, 1, 0, 1)]
    requires s3.heap == Register(s.heap, n, 1).(roots := Register(s.heap, n, 1).roots[n := 2])
    ensures s3.(heap := s3.heap.(uninitialized := s3.heap.uninitialized - {n})) == Arrived(s, n)
  {
    assert s.heap.uninitialized + {n} - {n} == s.heap.uninitialized;
    assert seq<Option<char>>(1, i => None) == [None];
    assert s3.heap.roots == s.heap.roots[n := 2];
    assert s3.held == s.held[n := Handles(0, 1, 0, 1)];
  }

  /** Its client drops both handles. */
  ghost function Left(s: State<char>, n: char): State<char> {
    State(s.heap.(roots := s.heap.roots[n := 0]), s.held[n := Handles(0, 0, 0, 0)])
  }

  lemma Leaves(s: State<char>, n: char)
    requires Reached(s) && n in s.heap.refs && s.heap.refs[n] != [] && n in s.held && s.held[n] == Handles(0, 1, 0, 1)
    ensures Reached(Left(s, n))
  {
    hide Reached, Shaped;
    ReachedIsShaped(s, n);
    var s1 := State(s.heap.(roots := s.heap.roots[n := 1]), s.held[n := Handles(0, 1, 0, 0)]);
    assert Reached(s1) by {
      OneDropped(s, n, RwPin);
    }
    assert Reached(State(s1.heap.(roots := s1.heap.roots[n := 0]), s1.held[n := Handles(0, 0, 0, 0)])) by {
      OneDropped(s1, n, Root);
    }
    assert s1.heap.roots[n := 0] == s.heap.roots[n := 0];
    assert s1.held[n := Handles(0, 0, 0, 0)] == s.held[n := Handles(0, 0, 0, 0)];
  }

  ghost function Stored(s: State<char>, owner: char, target: char): State<char>
    requires target in s.heap.refs
  {
    s.(heap := s.heap.(refs := s.heap.refs[target := s.heap.refs[target] + [owner]], fields := s.heap.fields[owner := [Some(target)]]))
  }

  lemma Stores(s: State<char>, owner: char, target: char)
    requires Reached(s) && owner in s.heap.refs && target in s.heap.refs && s.heap.flagged == {}
    requires owner in s.heap.fields && s.heap.fields[owner] == [None] && Holds(s, owner, RwPin) && Holds(s, target, Root)
    ensures Reached(Stored(s, owner, target))
  {
    hide Reached, Good;
    ReachedIsShaped(s, owner);
    OneMore(s, Store(owner, 0, Some(target)));
    var none: Option<char> := None;
    assert [none][0 := Some(target)] == [Some(target)];
    assert s.heap.flagged + {} == s.heap.flagged;
  }

  /** Objects `a`, `b` and `r`, each of them held by its client. */
  ghost function ThreeObjects(): State<char> {
    Arrived(Arrived(Arrived(Nothing(), 'a'), 'b'), 'r')
  }

  /** `a` and `b` hold each other, `r` holds `a`, and `r` alone is held by its client. */
  ghost function LiveCycle(): State<char> {
    State(
      Heap(map['a' := ['b', 'r'], 'b' := ['a'], 'r' := []],
           map['a' := [Some('b')], 'b' := [Some('a')], 'r' := [Some('a')]],
           map['a' := 0, 'b' := 0, 'r' := 2], {}, {}, {}),
      map['a' := Handles(0, 0, 0, 0), 'b' := Handles(0, 0, 0, 0), 'r' := Handles(0, 1, 0, 1)])
  }

  lemma ThreeObjectsReached()
    ensures Reached(ThreeObjects())
    ensures ThreeObjects() ==
              State(Heap(map['a' := [], 'b' := [], 'r' := []], map['a' := [None], 'b' := [None], 'r' := [None]],
                         map['a' := 2, 'b' := 2, 'r' := 2], {}, {}, {}),
                    map['a' := Handles(0, 1, 0, 1), 'b' := Handles(0, 1, 0, 1), 'r' := Handles(0, 1, 0, 1)])
  {
    hide Reached;
    var s: State<char> := Nothing();
    NothingReached();
    Arrives(s, 'a');
    Arrives(Arrived(s, 'a'), 'b');
    Arrives(Arrived(Arrived(s, 'a'), 'b'), 'r');
  }

  lemma NothingReached()
    ensures Reached(Nothing<char>())
  {
    var none: seq<Action<char>> := [];
    assert After(none) == Some(Nothing());
  }

  /** Clients can bring a live cycle about. */
  lemma LiveCycleReached()
    ensures Reached(LiveCycle())
  {
    hide Reached;
    ThreeObjectsReached();
    var s := ThreeObjects();
    Stores(s, 'a', 'b');
    var s1 := Stored(s, 'a', 'b');
    Stores(s1, 'b', 'a');
    var s2 := Stored(s1, 'b', 'a');
    Stores(s2, 'r', 'a');
    var s3 := Stored(s2, 'r', 'a');
    Leaves(s3, 'a');
    Leaves(Left(s3, 'a'), 'b');
    var s4 := Left(Left(s3, 'a'), 'b');
    assert s3.heap.refs['a'] == ['b', 'r'] && s3.heap.refs['b'] == ['a'];
    assert s4.heap.refs == LiveCycle().heap.refs && s4.heap.fields == LiveCycle().heap.fields;
    assert s4.heap.roots == LiveCycle().heap.roots && s4.held == LiveCycle().held;
    assert s4 == LiveCycle();
  }

  /** The client can name `n`, and yet two inspections of it destroy it. */
  ghost predicate Loses<N>(s: State<N>, n: N, locks: nat -> bool)
    requires Invariant(s)
  {
    && n in s.heap.refs && CanName(s, n) && n !in s.heap.destroyed
    && var first := Inspect(s.heap, n, locks, 0);
    && n in first.heap.refs && !first.dead && n in Inspect(first.heap, n, locks, first.clock).heap.destroyed
  }

  /**
   The condition on inspections is needed: in a state that a run ends in, the client can read `a`
   from the object that it has pinned, and two inspections of `a` destroy it.
   */
  lemma LiveCycleIsLost(locks: nat -> bool)
    requires forall t :: locks(t)
    ensures Reached(LiveCycle()) && Invariant(LiveCycle()) && Loses(LiveCycle(), 'a', locks)
  {
    hide Reached, Invariant, Search, Loses, CanName, LiveCycle;
    LiveCycleReached();
    OneMore(LiveCycle(), Initialize('a'));
    LiveCycleNamed();
    LiveCycleCounterexample(locks, 2);
    NamedIsLost(LiveCycle(), 'a', locks);
  }

  lemma NamedIsLost<N>(s: State<N>, n: N, locks: nat -> bool)
    requires Invariant(s) && n in s.heap.refs && CanName(s, n) && s.heap.roots[n] == 0 && forall t :: locks(t)
    requires n in Search(GraphOf(s.heap), s.heap.flagged, {}, n, locks, 2).flagged
    ensures Loses(s, n, locks)
  {
    hide CanName, Live, Inspect, CollectList, Search, Balanced;
    NamedIsLive(s, n);
    FlaggedIsLost(s.heap, n, n, locks, 0);
  }

  // ---------------------------------------------------------------- a run into a pin on what garbage holds

  /** The objects of which some client has the lock by a pin. */
  ghost function PinsOf<N>(s: State<N>): set<N> {
    set n | n in s.held && Pinned(s, n)
  }

  /** Garbage `n` holds `t`, and the client of `t` has pinned it. */
  ghost function PinnedTarget(): State<char> {
    State(
      Heap(map['n' := [], 't' := ['n']], map['n' := [Some('t')], 't' := [None]], map['n' := 0, 't' := 2], {'n'}, {}, {}),
      map['n' := Handles(0, 0, 0, 0), 't' := Handles(0, 1, 0, 1)])
  }

  /** The last handle to an object that nothing holds is dropped. */
  lemma Abandons(s: State<char>, n: char)
    requires Reached(s) && n in s.heap.refs && s.heap.refs[n] == [] && n in s.held && s.held[n] == Handles(0, 1, 0, 1)
    ensures Reached(State(Left(s, n).heap.(flagged := s.heap.flagged + {n}), Left(s, n).held))
  {
    hide Reached, Shaped;
    ReachedIsShaped(s, n);
    var s1 := State(s.heap.(roots := s.heap.roots[n := 1]), s.held[n := Handles(0, 1, 0, 0)]);
    assert Reached(s1) by {
      OneMore(s, DropHandle(n, RwPin, true));
    }
    assert Reached(State(s1.heap.(roots := s1.heap.roots[n := 0], flagged := s1.heap.flagged + {n}), s1.held[n := Handles(0, 0, 0, 0)])) by {
      OneMore(s1, DropHandle(n, Root, true));
    }
    assert s1.heap.roots[n := 0] == s.heap.roots[n := 0];
    assert s1.held[n := Handles(0, 0, 0, 0)] == s.held[n := Handles(0, 0, 0, 0)];
  }

  lemma PinnedTargetReached()
    ensures Reached(PinnedTarget())
  {
    hide Reached;
    var s: State<char> := Nothing();
    NothingReached();
    Arrives(s, 'n');
    var s1 := Arrived(s, 'n');
    Arrives(s1, 't');
    var s2 := Arrived(s1, 't');
    Stores(s2, 'n', 't');
    var s3 := Stored(s2, 'n', 't');
    Abandons(s3, 'n');
    var s4 := State(Left(s3, 'n').heap.(flagged := s3.heap.flagged + {'n'}), Left(s3, 'n').held);
    assert s3.heap.refs['t'] == ['n'] && s4.heap.refs == PinnedTarget().heap.refs && s4.heap.fields == PinnedTarget().heap.fields;
    assert s4.heap.roots == PinnedTarget().heap.roots && s4.held == PinnedTarget().held;
    assert s4 == PinnedTarget();
  }

  lemma PinnedTargetIsPinned()
    ensures Pinned(PinnedTarget(), 't') && PinsOf(PinnedTarget()) == {'t'}
  {
    assert !Pinned(PinnedTarget(), 'n');
  }

  lemma LiveCycleNamed()
    ensures CanName(LiveCycle(), 'a') && GraphOf(LiveCycle().heap) == Graph(map['a' := ['b', 'r'], 'b' := ['a'], 'r' := []], {'r'})
    ensures var h := LiveCycle().heap; 'a' in h.refs && 'a' in h.roots && h.roots['a'] == 0 && h.flagged == {}
  {
    var s := LiveCycle();
    assert s.heap.fields['r'][0] == Some('a') && Pinned(s, 'r');
  }

  // ---------------------------------------------------------------- reachability, forwards

  /** `n` is a root, or held by a field of an object that is reachable in fewer steps. */
  ghost predicate HeldWithin<N>(h: Heap<N>, n: N, steps: nat)
    requires n in h.roots
  {
    || h.roots[n] > 0
    || (steps > 0 && exists owner :: owner in h.fields && owner in h.roots && Some(n) in h.fields[owner] && HeldWithin(h, owner, steps - 1))
  }

  /** Following fields forwards from the roots finds the same objects as the backward search. */
  lemma {:induction false} ForwardAndBackward<N>(h: Heap<N>, n: N, steps: nat)
    requires Shaped(h) && Balanced(h) && n in h.refs
    ensures HeldWithin(h, n, steps) <==> RootedWithin(GraphOf(h), {}, n, steps)
  {
    if h.roots[n] == 0 && steps > 0 {
      var g := GraphOf(h);
      if HeldWithin(h, n, steps) {
        var owner :| owner in h.fields && owner in h.roots && Some(n) in h.fields[owner] && HeldWithin(h, owner, steps - 1);
        ForwardAndBackward(h, owner, steps - 1);
        var slot :| 0 <= slot < |h.fields[owner]| && h.fields[owner][slot] == Some(n);
        OldValueIsAware(h, owner, slot);
        var i :| 0 <= i < |g.refs[n]| && g.refs[n][i] == owner;
      }
      if RootedWithin(g, {}, n, steps) {
        var i :| 0 <= i < |g.refs[n]| && RootedWithin(g, {}, g.refs[n][i], steps - 1);
        ForwardAndBackward(h, g.refs[n][i], steps - 1);
        assert RefCount(h, n, g.refs[n][i]) == FieldCount(h, g.refs[n][i], n);
      }
    }
  }
}
