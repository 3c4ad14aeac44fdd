/**
 `atomic_bit_set` as a step system: threads set and clear flags of one shared word by
 compare-and-swap loops on possibly stale copies, and every call takes effect in one instant.
 */
module AtomicFlags {
  import opened Wrappers

  type Tid = nat

  /** A word or mask, as the set of its bits that are set. */
  type Bit = n: nat | n < 8
  type Bits = set<Bit>

  /** `EnableMask(mask)` sets the bits of `mask`, `ClearMask(mask)` keeps only those. */
  datatype Call = EnableMask(mask: Bits) | ClearMask(mask: Bits)

  function Effect(call: Call, v: Bits): Bits {
    match call
    case EnableMask(mask) => v + mask
    case ClearMask(mask) => v * mask
  }

  /** A call in progress remembers the word as it last saw it, which its effect would change. */
  datatype Pc = Idle | Looping(call: Call, v: Bits)

  /** A finished call, with its answer: whether it changed the word. */
  datatype Finished = Finished(thread: Tid, call: Call, answer: bool)

  datatype State = State(word: Bits, threads: map<Tid, Pc>, log: seq<Finished>)

  /** `Load` starts a call, `Swap` is one compare-and-swap; a weak swap may fail spuriously. */
  datatype Step = Load(call: Call) | Swap(spurious: bool)

  ghost predicate Enabled(s: State, t: Tid, step: Step) {
    t in s.threads && if step.Load? then s.threads[t].Idle? else s.threads[t].Looping?
  }

  /** What follows when a thread has just read the word: return false if there is nothing to do. */
  function Checked(s: State, t: Tid, call: Call): State {
    if Effect(call, s.word) == s.word
    then s.(threads := s.threads[t := Idle], log := s.log + [Finished(t, call, false)])
    else s.(threads := s.threads[t := Looping(call, s.word)])
  }

  function Apply(s: State, t: Tid, step: Step): State
    requires Enabled(s, t, step)
  {
    match step
    case Load(call) => Checked(s, t, call)
    case Swap(spurious) =>
      var pc := s.threads[t];
      if s.word == pc.v && !spurious then
        State(Effect(pc.call, pc.v), s.threads[t := Idle], s.log + [Finished(t, pc.call, true)])
      else Checked(s, t, pc.call)
  }

  // ---------------------------------------------------------------- one call after the other

  /** The word after executing the calls one after the other. */
  function Replay(word: Bits, log: seq<Finished>): Bits {
    if log == [] then word else Effect(log[|log| - 1].call, Replay(word, log[..|log| - 1]))
  }

  /** Every call answered what it would have answered had the calls been executed in that order. */
  ghost predicate AnswersRight(word: Bits, log: seq<Finished>) {
    forall i {:trigger log[i]} :: 0 <= i < |log| ==>
      (log[i].answer <==> Effect(log[i].call, Replay(word, log[..i])) != Replay(word, log[..i]))
  }

  ghost predicate Invariant(initial: Bits, s: State) {
    && s.word == Replay(initial, s.log) && AnswersRight(initial, s.log)
    && forall t :: t in s.threads && s.threads[t].Looping? ==> Effect(s.threads[t].call, s.threads[t].v) != s.threads[t].v
  }

  lemma {:induction false} LogGrows(initial: Bits, log: seq<Finished>, next: Finished)
    requires AnswersRight(initial, log)
    requires next.answer <==> Effect(next.call, Replay(initial, log)) != Replay(initial, log)
    ensures AnswersRight(initial, log + [next]) && Replay(initial, log + [next]) == Effect(next.call, Replay(initial, log))
  {
    var longer := log + [next];
    assert longer[..|log|] == log;
    forall i {:trigger longer[i]} | 0 <= i < |log| ensures longer[i] == log[i] && longer[..i] == log[..i] {
    }
  }

  lemma {:induction false} StepKeepsInvariant(initial: Bits, s: State, t: Tid, step: Step)
    requires Invariant(initial, s) && Enabled(s, t, step)
    ensures Invariant(initial, Apply(s, t, step))
  {
    var call := if step.Load? then step.call else s.threads[t].call;
    LogGrows(initial, s.log, Finished(t, call, Effect(call, s.word) != s.word));
  }

  ghost function After(s: State, run: seq<(Tid, Step)>): Option<State> {
    if run == [] then Some(s)
    else
      var before, last := After(s, run[..|run| - 1]), run[|run| - 1];
      if before.None? || !Enabled(before.value, last.0, last.1) then None
      else Some(Apply(before.value, last.0, last.1))
  }

  ghost predicate Initial(s: State) {
    s.log == [] && forall t :: t in s.threads ==> s.threads[t].Idle?
  }

  lemma {:induction false} RunKeepsInvariant(s: State, run: seq<(Tid, Step)>)
    requires Initial(s) && After(s, run).Some?
    ensures Invariant(s.word, After(s, run).value)
  {
    if run != [] {
      RunKeepsInvariant(s, run[..|run| - 1]);
      StepKeepsInvariant(s.word, After(s, run[..|run| - 1]).value, run[|run| - 1].0, run[|run| - 1].1);
    }
  }

  /**
   Every interleaving of any number of threads is equivalent to executing the finished calls one
   after the other in the order in which they finished: the word is what that gives, so no
   update is lost, and every call answers whether it changed the word.
   */
  lemma {:induction false} FlagsAreAtomic(s: State, run: seq<(Tid, Step)>)
    requires Initial(s) && After(s, run).Some?
    ensures var r := After(s, run).value; r.word == Replay(s.word, r.log) && AnswersRight(s.word, r.log)
  {
    RunKeepsInvariant(s, run);
  }

  // ---------------------------------------------------------------- bit by bit

  /** The call determines that bit. */
  predicate Touches(call: Call, b: Bit) {
    match call
    case EnableMask(mask) => b in mask
    case ClearMask(mask) => b !in mask
  }

  /** The bit after the calls: what the last call that touches it makes of it, or as it was. */
  predicate BitAfter(word: Bits, log: seq<Finished>, b: Bit) {
    if log == [] then b in word
    else if Touches(log[|log| - 1].call, b) then log[|log| - 1].call.EnableMask?
    else BitAfter(word, log[..|log| - 1], b)
  }

  lemma {:induction false} ReplayBits(word: Bits, log: seq<Finished>, b: Bit)
    ensures b in Replay(word, log) <==> BitAfter(word, log, b)
    decreases |log|
  {
    if log != [] {
      ReplayBits(word, log[..|log| - 1], b);
    }
  }

  /** No call from the `i`-th on touches the bit. */
  predicate Untouched(log: seq<Finished>, i: nat, b: Bit) {
    forall j :: i <= j < |log| ==> !Touches(log[j].call, b)
  }

  lemma {:induction false} UntouchedStays(word: Bits, log: seq<Finished>, i: nat, b: Bit)
    requires i <= |log| && Untouched(log, i, b)
    ensures BitAfter(word, log, b) <==> BitAfter(word, log[..i], b)
    decreases |log|
  {
    if i < |log| {
      var before := log[..|log| - 1];
      assert before[..i] == log[..i];
      assert forall j :: i <= j < |before| ==> before[j] == log[j];
      UntouchedStays(word, before, i, b);
    } else {
      assert log[..i] == log;
    }
  }

  lemma {:induction false} BitIsLastTouch(word: Bits, log: seq<Finished>, i: nat, b: Bit)
    requires i < |log| && Touches(log[i].call, b) && Untouched(log, i + 1, b)
    ensures BitAfter(word, log, b) <==> log[i].call.EnableMask?
  {
    UntouchedStays(word, log, i + 1, b);
    assert log[..i + 1][i] == log[i];
  }

  lemma {:induction false} ChangesIffSomeBit(v: Bits, v': Bits)
    ensures v' != v <==> exists b: Bit :: (b in v') != (b in v)
  {
    if forall b: Bit :: (b in v') == (b in v) {
      assert v' == v;
    }
  }

  /**
   In every interleaving, a bit that no finished call touches is as it was at the start; any other
   bit is set if and only if the last finished call that touches it enables it.
   */
  lemma {:induction false} BitsFollowCalls(s: State, run: seq<(Tid, Step)>, b: Bit)
    requires Initial(s) && After(s, run).Some?
    ensures var r := After(s, run).value;
            && (Untouched(r.log, 0, b) ==> (b in r.word <==> b in s.word))
            && (forall i :: 0 <= i < |r.log| && Touches(r.log[i].call, b) && Untouched(r.log, i + 1, b) ==>
                  (b in r.word <==> r.log[i].call.EnableMask?))
  {
    var log := After(s, run).value.log;
    FlagsAreAtomic(s, run);
    ReplayBits(s.word, log, b);
    if Untouched(log, 0, b) {
      UntouchedStays(s.word, log, 0, b);
    }
    forall i | 0 <= i < |log| && Touches(log[i].call, b) && Untouched(log, i + 1, b)
      ensures BitAfter(s.word, log, b) <==> log[i].call.EnableMask?
    {
      BitIsLastTouch(s.word, log, i, b);
    }
  }

  /** The `i`-th of the calls changes that bit. */
  predicate ChangesBit(word: Bits, log: seq<Finished>, i: nat, b: Bit)
    requires i < |log|
  {
    BitAfter(word, log[..i + 1], b) != BitAfter(word, log[..i], b)
  }

  /** A call is told that it changed the word if and only if some bit was another one before it. */
  lemma {:induction false} AnswerIffSomeBitChanges(s: State, run: seq<(Tid, Step)>, i: nat)
    requires Initial(s) && After(s, run).Some? && i < |After(s, run).value.log|
    ensures var log := After(s, run).value.log;
            log[i].answer <==> exists b: Bit :: ChangesBit(s.word, log, i, b)
  {
    hide After, Effect;
    var log := After(s, run).value.log;
    FlagsAreAtomic(s, run);
    var v, v' := Replay(s.word, log[..i]), Replay(s.word, log[..i + 1]);
    assert log[..i + 1][..i] == log[..i] && log[..i + 1][i] == log[i];
    assert v' == Effect(log[i].call, v);
    ChangesIffSomeBit(v, v');
    forall b: Bit ensures ChangesBit(s.word, log, i, b) <==> (b in v') != (b in v) {
      ReplayBits(s.word, log[..i], b);
      ReplayBits(s.word, log[..i + 1], b);
    }
    if b: Bit :| (b in v') != (b in v) {
      assert ChangesBit(s.word, log, i, b);
    }
    if b: Bit :| ChangesBit(s.word, log, i, b) {
      assert (b in v') != (b in v);
    }
  }

  // ---------------------------------------------------------------- calls come to an end

  /** Every bit is as the call wants it. */
  ghost predicate Done(call: Call, v: Bits) {
    forall b: Bit :: Touches(call, b) ==> (b in v <==> call.EnableMask?)
  }

  /** The bits that the call touches are as it wants them, and the others as they were. */
  ghost predicate Applied(call: Call, v: Bits, v': Bits) {
    Done(call, v') && forall b: Bit :: !Touches(call, b) ==> (b in v' <==> b in v)
  }

  lemma {:induction false} EffectIsApplied(call: Call, v: Bits)
    ensures Applied(call, v, Effect(call, v)) && (Effect(call, v) == v <==> Done(call, v))
  {
    if Done(call, v) {
      forall b: Bit ensures b in Effect(call, v) <==> b in v {
        assert Touches(call, b) || !Touches(call, b);
      }
    }
  }

  /** A call that finds its work done returns at once and answers no; any other one goes on to swap. */
  lemma {:induction false} LoadAchieves(s: State, t: Tid, call: Call)
    requires Enabled(s, t, Load(call))
    ensures var s1 := Apply(s, t, Load(call));
            && s1.word == s.word
            && (Done(call, s.word) ==> s1.threads == s.threads[t := Idle] && s1.log == s.log + [Finished(t, call, false)])
            && (!Done(call, s.word) ==> s1.threads == s.threads[t := Looping(call, s.word)] && s1.log == s.log)
  {
    EffectIsApplied(call, s.word);
  }

  /**
   A swap that finds the word as the call has last seen it finishes the call; one that fails is as
   good as a new load of the word.
   */
  lemma {:induction false} SwapAchieves(s: State, t: Tid, spurious: bool)
    requires Enabled(s, t, Swap(spurious))
    ensures var call, s1 := s.threads[t].call, Apply(s, t, Swap(spurious));
            if s.word == s.threads[t].v && !spurious then
              Applied(call, s.word, s1.word) && s1.threads == s.threads[t := Idle] && s1.log == s.log + [Finished(t, call, true)]
            else
              && s1.word == s.word
              && (Done(call, s.word) ==> s1.threads == s.threads[t := Idle] && s1.log == s.log + [Finished(t, call, false)])
              && (!Done(call, s.word) ==> s1.threads == s.threads[t := Looping(call, s.word)] && s1.log == s.log)
  {
    EffectIsApplied(s.threads[t].call, s.word);
  }

  // ---------------------------------------------------------------- flags that stay

  /** The call leaves the bits of `flags` alone or sets them. */
  predicate Keeps(call: Call, flags: Bits) {
    match call
    case EnableMask(_) => true
    case ClearMask(mask) => flags <= mask
  }

  lemma {:induction false} KeptOnce(call: Call, flags: Bits, v: Bits)
    requires Keeps(call, flags) && flags <= v
    ensures flags <= Effect(call, v)
  {
  }

  /** A flag once set stays set while no call clears it, whoever else changes the word meanwhile. */
  lemma {:induction false} EnabledFlagsStay(word: Bits, log: seq<Finished>, i: nat, flags: Bits)
    requires i < |log| && log[i].call == EnableMask(flags)
    requires forall j :: i < j < |log| ==> Keeps(log[j].call, flags)
    ensures flags <= Replay(word, log)
    decreases |log|
  {
    var before := log[..|log| - 1];
    if i < |log| - 1 {
      EnabledFlagsStay(word, before, i, flags);
      KeptOnce(log[|log| - 1].call, flags, Replay(word, before));
    }
  }

  // ---------------------------------------------------------------- the right to initialize

  /** The bit of the flag `uninitialized`. */
  const UNINITIALIZED: Bit := 0

  /** `TryAcquireInitializeRight` clears the flag `uninitialized`. */
  const ACQUIRE: Call := ClearMask({1, 2, 3, 4, 5, 6, 7})

  /** Calls about other flags neither set nor clear `uninitialized`. */
  predicate Unrelated(call: Call) {
    match call
    case EnableMask(mask) => UNINITIALIZED !in mask
    case ClearMask(mask) => UNINITIALIZED in mask
  }

  function Winners(log: seq<Finished>): nat {
    if log == [] then 0
    else Winners(log[..|log| - 1]) + if log[|log| - 1].call == ACQUIRE && log[|log| - 1].answer then 1 else 0
  }

  lemma {:induction false} UnrelatedKeeps(call: Call, v: Bits)
    requires Unrelated(call)
    ensures UNINITIALIZED in Effect(call, v) <==> UNINITIALIZED in v
  {
  }

  lemma {:induction false} AcquireClears(v: Bits)
    ensures UNINITIALIZED !in Effect(ACQUIRE, v)
    ensures Effect(ACQUIRE, v) != v <==> UNINITIALIZED in v
  {
    if UNINITIALIZED !in v {
      assert forall b :: b in v ==> b in Effect(ACQUIRE, v);
    }
  }

  /** Of calls executed one after the other, exactly the first request for the right is told yes. */
  lemma {:induction false} OneInitializer(word: Bits, log: seq<Finished>)
    requires AnswersRight(word, log) && UNINITIALIZED in word
    requires forall i :: 0 <= i < |log| ==> log[i].call == ACQUIRE || Unrelated(log[i].call)
    ensures Winners(log) == if exists i :: 0 <= i < |log| && log[i].call == ACQUIRE then 1 else 0
    ensures UNINITIALIZED in Replay(word, log) <==> Winners(log) == 0
    decreases |log|
  {
    if log != [] {
      var before, last := log[..|log| - 1], log[|log| - 1];
      forall i {:trigger before[i]} | 0 <= i < |before| ensures before[i] == log[i] && before[..i] == log[..i] {
      }
      OneInitializer(word, before);
      if last.call == ACQUIRE {
        AcquireClears(Replay(word, before));
      } else {
        UnrelatedKeeps(last.call, Replay(word, before));
      }
    }
  }

  /**
   However many threads ask for the right to initialize an object while others change its other
   flags, in whatever interleaving, exactly one of them is told yes, as soon as one has finished.
   */
  lemma {:induction false} InitializedOnce(s: State, run: seq<(Tid, Step)>)
    requires Initial(s) && After(s, run).Some? && UNINITIALIZED in s.word
    requires forall i :: 0 <= i < |After(s, run).value.log| ==>
               After(s, run).value.log[i].call == ACQUIRE || Unrelated(After(s, run).value.log[i].call)
    ensures var r := After(s, run).value;
            && Winners(r.log) == (if exists i :: 0 <= i < |r.log| && r.log[i].call == ACQUIRE then 1 else 0)
            && (UNINITIALIZED in r.word <==> Winners(r.log) == 0)
  {
    FlagsAreAtomic(s, run);
    OneInitializer(s.word, After(s, run).value.log);
  }
}
