/**
 The reader-writer lock as a step system. Any number of threads use one lock word; a step is one
 atomic load or compare-and-swap on the word, or one access to the thread's own set of write
 accesses. Between two steps of a thread any other thread may run, so its local copy of the
 word may be stale.
 */
module RwLock {
  import opened Wrappers

  type Tid = nat

  /** The word is 8 bits wide; its highest bit is the write bit. */
  type Word = n: nat | n < 256
  const WRITE_MASK: Word := 128
  const WRITTEN: Word := 129
  const MAX_READS: nat := 128

  function ClearWriteBit(v: Word): Word {
    v % 128
  }

  /**
   Where a thread is. `Reading` is about to try its swap, with `attempts` tries left (none for
   the blocking form); `Inserting` has won the write access but not noted it in its set;
   `Erasing` has given up an access but not yet erased the lock from its set.
   */
  datatype Pc =
    | Idle
    | Reading(v: Word, attempts: Option<nat>)
    | Upgrading
    | Inserting
    | Decrementing(v: Word)
    | Erasing

  /** `inSet`: this lock is in the thread's set of write accesses. */
  datatype Thread = Thread(pc: Pc, inSet: bool)

  /** The word, the threads, and who holds what: a thread may hold several read accesses. */
  datatype State = State(word: Word, threads: map<Tid, Thread>, readers: multiset<Tid>, writer: Option<Tid>)

  datatype Step =
    | TryAcquireWrite
    | LoadForRead(attempts: Option<nat>)
    | SwapRead(spurious: bool)
    | TryUpgrade
    | StartUpgrade
    | SwapUpgrade(spurious: bool)
    | DownGrade
    | StartRelease
    | SwapRelease(spurious: bool)
    | InsertIntoSet
    | EraseFromSet

  ghost predicate Holds(s: State, t: Tid) {
    t in s.readers || s.writer == Some(t)
  }

  /** Threads start operations when idle, and upgrade, downgrade or release only what they hold. */
  ghost predicate Enabled(s: State, t: Tid, step: Step) {
    t in s.threads &&
    var pc := s.threads[t].pc;
    match step
    case TryAcquireWrite => pc.Idle?
    case LoadForRead(_) => pc.Idle?
    case SwapRead(_) => pc.Reading?
    case TryUpgrade => pc.Idle? && Holds(s, t)
    case StartUpgrade => pc.Idle? && Holds(s, t)
    case SwapUpgrade(_) => pc.Upgrading?
    case DownGrade => pc.Idle? && Holds(s, t)
    case StartRelease => pc.Idle? && Holds(s, t)
    case SwapRelease(_) => pc.Decrementing?
    case InsertIntoSet => pc.Inserting?
    case EraseFromSet => pc.Erasing?
  }

  function Goto(s: State, t: Tid, pc: Pc): State
    requires t in s.threads
  {
    s.(threads := s.threads[t := s.threads[t].(pc := pc)])
  }

  /** The swap of `TryUpgrade` and `Upgrade`, from one reader to the writer. */
  function Upgraded(s: State, t: Tid): State
    requires t in s.threads
  {
    Goto(s, t, Inserting).(word := WRITTEN, readers := s.readers - multiset{t}, writer := Some(t))
  }

  /** The effect of one step; a weak swap may fail although the word is as expected. */
  function Apply(s: State, t: Tid, step: Step): State
    requires Enabled(s, t, step)
  {
    var pc := s.threads[t].pc;
    match step
    case TryAcquireWrite =>
      if s.word == 0 then Goto(s, t, Inserting).(word := WRITTEN, writer := Some(t)) else s
    case LoadForRead(attempts) =>
      Goto(s, t, if attempts == Some(0) then Idle else Reading(ClearWriteBit(s.word), attempts))
    case SwapRead(spurious) =>
      if s.word == pc.v && !spurious then
        Goto(s, t, Idle).(word := (pc.v + 1) % 256, readers := s.readers + multiset{t})
      else if pc.attempts.Some? && pc.attempts.value <= 1 then Goto(s, t, Idle)
      else Goto(s, t, Reading(ClearWriteBit(s.word), if pc.attempts.Some? then Some(pc.attempts.value - 1) else None))
    case TryUpgrade =>
      if s.word == 1 then Upgraded(s, t) else s
    case StartUpgrade => Goto(s, t, Upgrading)
    case SwapUpgrade(spurious) =>
      if s.word == 1 && !spurious then Upgraded(s, t)
      else if s.word == WRITTEN then Goto(s, t, Idle)
      else s
    case DownGrade =>
      if s.word == WRITTEN then Goto(s, t, Erasing).(word := 1, readers := s.readers + multiset{t}, writer := None) else s
    case StartRelease =>
      if s.word == WRITTEN then Goto(s, t, Erasing).(word := 0, writer := None) else Goto(s, t, Decrementing(s.word))
    case SwapRelease(spurious) =>
      if s.word == pc.v && !spurious then
        Goto(s, t, Erasing).(word := if pc.v != 0 then pc.v - 1 else pc.v, readers := s.readers - multiset{t})
      else Goto(s, t, Decrementing(s.word))
    case InsertIntoSet => s.(threads := s.threads[t := Thread(Idle, true)])
    case EraseFromSet => s.(threads := s.threads[t := Thread(Idle, false)])
  }

  /** The word tells exactly who holds the lock. */
  ghost predicate WordExact(s: State) {
    match s.writer
    case None => s.word == |s.readers| <= MAX_READS
    case Some(_) => s.word == WRITTEN && s.readers == multiset{}
  }

  ghost predicate ThreadConsistent(s: State, t: Tid)
    requires t in s.threads
  {
    match s.threads[t].pc
    case Inserting => s.writer == Some(t) && !s.threads[t].inSet
    case Erasing => s.writer != Some(t)
    case Reading(v, _) => v < 128 && (s.threads[t].inSet <==> s.writer == Some(t))
    case Upgrading => Holds(s, t) && (s.threads[t].inSet <==> s.writer == Some(t))
    case Decrementing(_) => t in s.readers && !s.threads[t].inSet
    case Idle => s.threads[t].inSet <==> s.writer == Some(t)
  }

  ghost predicate Invariant(s: State) {
    && WordExact(s)
    && (forall t :: Holds(s, t) ==> t in s.threads)
    && (forall t :: t in s.threads ==> ThreadConsistent(s, t))
  }

  /** The specification: a lock with at most 128 reads or one write, changed in one step. */
  datatype Held = Held(readers: multiset<Tid>, writer: Option<Tid>)

  function View(s: State): Held {
    Held(s.readers, s.writer)
  }

  ghost predicate SpecStep(h: Held, h': Held, t: Tid) {
    || h' == h
    || (h.writer.None? && |h.readers| < MAX_READS && h' == Held(h.readers + multiset{t}, None))
    || (h == Held(multiset{}, None) && h' == Held(multiset{}, Some(t)))
    || (h == Held(multiset{t}, None) && h' == Held(multiset{}, Some(t)))
    || (h == Held(multiset{}, Some(t)) && (h' == Held(multiset{t}, None) || h' == Held(multiset{}, None)))
    || (h.writer.None? && t in h.readers && h' == Held(h.readers - multiset{t}, None))
  }

  lemma {:induction false} SingleReader(readers: multiset<Tid>, t: Tid)
    requires |readers| == 1 && t in readers
    ensures readers == multiset{t}
  {
    assert |readers - multiset{t}| == 0;
    assert readers == (readers - multiset{t}) + multiset{t};
  }

  /** Gaining and giving back one read access. */
  lemma {:induction false} CountReads(readers: multiset<Tid>, t: Tid)
    ensures |readers + multiset{t}| == |readers| + 1
    ensures t in readers ==> |readers - multiset{t}| == |readers| - 1
    ensures t in readers && |readers| == 1 ==> readers == multiset{t} && readers - multiset{t} == multiset{}
    ensures readers == multiset{} ==> readers + multiset{t} == multiset{t}
  {
    if t in readers && |readers| == 1 {
      SingleReader(readers, t);
    }
  }

  lemma {:induction false} StepKeepsWord(s: State, t: Tid, step: Step)
    requires Enabled(s, t, step) && WordExact(s) && ThreadConsistent(s, t)
    ensures WordExact(Apply(s, t, step)) && SpecStep(View(s), View(Apply(s, t, step)), t)
  {
    CountReads(s.readers, t);
    match step
    case SwapRead(_) =>
    case TryUpgrade =>
    case SwapUpgrade(_) =>
    case SwapRelease(_) =>
    case DownGrade =>
    case _ =>
  }

  /** A step of one thread neither gives nor takes another one's access. */
  lemma {:induction false} OthersUntouched(h: Held, h': Held, t: Tid, u: Tid)
    requires SpecStep(h, h', t) && u != t
    ensures (u in h'.readers <==> u in h.readers) && (h'.writer == Some(u) <==> h.writer == Some(u))
  {
  }

  lemma {:induction false} StepKeepsThread(s: State, t: Tid, step: Step)
    requires Enabled(s, t, step) && WordExact(s) && ThreadConsistent(s, t) && WordExact(Apply(s, t, step))
    ensures t in Apply(s, t, step).threads && ThreadConsistent(Apply(s, t, step), t)
  {
  }

  lemma {:induction false} StepKeepsThreads(s: State, t: Tid, step: Step)
    requires Enabled(s, t, step)
    ensures var s' := Apply(s, t, step);
            s'.threads.Keys == s.threads.Keys && forall u :: u in s.threads && u != t ==> s'.threads[u] == s.threads[u]
  {
  }

  lemma {:induction false} OthersConsistent(s: State, s': State, t: Tid, u: Tid)
    requires u in s.threads && u in s'.threads && s'.threads[u] == s.threads[u] && u != t && ThreadConsistent(s, u)
    requires SpecStep(View(s), View(s'), t)
    ensures ThreadConsistent(s', u)
  {
    OthersUntouched(View(s), View(s'), t, u);
  }

  lemma {:induction false} HoldersKnown(s: State, s': State, t: Tid, u: Tid)
    requires s'.threads.Keys == s.threads.Keys && t in s.threads && SpecStep(View(s), View(s'), t)
    requires Holds(s, u) ==> u in s.threads
    ensures Holds(s', u) ==> u in s'.threads
  {
    if u != t {
      OthersUntouched(View(s), View(s'), t, u);
    }
  }

  /** Every step of every thread is a step of the specification and keeps the invariant. */
  lemma {:induction false} StepRefines(s: State, t: Tid, step: Step)
    requires Invariant(s) && Enabled(s, t, step)
    ensures Invariant(Apply(s, t, step)) && SpecStep(View(s), View(Apply(s, t, step)), t)
  {
    assert ThreadConsistent(s, t);
    StepKeepsWord(s, t, step);
    StepKeepsThread(s, t, step);
    StepKeepsThreads(s, t, step);
    var s' := Apply(s, t, step);
    forall u | u in s.threads && u != t ensures ThreadConsistent(s', u) {
      OthersConsistent(s, s', t, u);
    }
    forall u | Holds(s', u) ensures u in s'.threads {
      HoldersKnown(s, s', t, u);
    }
  }

  // ---------------------------------------------------------------- all runs

  ghost predicate Initial(s: State) {
    && s.word == 0 && s.readers == multiset{} && s.writer == None
    && forall t :: t in s.threads ==> s.threads[t] == Thread(Idle, false)
  }

  /** The state after an interleaving of steps, if each is enabled when its turn comes. */
  ghost function After(s: State, run: seq<(Tid, Step)>): (r: Option<State>)
    requires Initial(s)
    ensures r.Some? ==> Invariant(r.value)
  {
    if run == [] then Some(s)
    else
      var before, last := After(s, run[..|run| - 1]), run[|run| - 1];
      if before.None? || !Enabled(before.value, last.0, last.1) then None
      else
        StepRefines(before.value, last.0, last.1);
        Some(Apply(before.value, last.0, last.1))
  }

  /**
   In every reachable state of every interleaving the word is the exact number of read accesses,
   at most 128, and there is no writer, or it is 129, and there is one writer and no reader; and
   a thread between two operations has the lock in its set exactly if it is that writer.
   */
  lemma {:induction false} LockIsExact(s: State, run: seq<(Tid, Step)>)
    requires Initial(s) && After(s, run).Some?
    ensures var r := After(s, run).value;
            && (r.writer.None? ==> r.word == |r.readers| <= MAX_READS)
            && (r.writer.Some? ==> r.word == WRITTEN && r.readers == multiset{})
            && (forall t :: t in r.threads && r.threads[t].pc.Idle? ==> (r.threads[t].inSet <==> r.writer == Some(t)))
  {
    var r := After(s, run).value;
    forall t | t in r.threads && r.threads[t].pc.Idle? ensures r.threads[t].inSet <==> r.writer == Some(t) {
      assert ThreadConsistent(r, t);
    }
  }

  /** With 128 read accesses no step of any thread takes another access of either kind. */
  lemma {:induction false} FullCountBlocks(s: State, t: Tid, step: Step)
    requires Invariant(s) && Enabled(s, t, step) && |s.readers| == MAX_READS
    ensures var s' := Apply(s, t, step); s'.writer == None && s'.readers <= s.readers && s'.word <= 128
  {
    assert ThreadConsistent(s, t);
  }

  /** `TryUpgrade` answers true when it swapped and when the word says "written"; a holder is then the writer. */
  lemma {:induction false} UpgradeAnswersTruly(s: State, t: Tid)
    requires Invariant(s) && Enabled(s, t, TryUpgrade)
    ensures (s.word == 1 || s.word == WRITTEN) ==> Apply(s, t, TryUpgrade).writer == Some(t)
    ensures !(s.word == 1 || s.word == WRITTEN) ==> Apply(s, t, TryUpgrade) == s
  {
  }

  /** The swap of an upgrade keeps the word exact only for the one reader: an outsider would steal the access. */
  lemma {:induction false} UpgradeNeedsHolder(s: State, t: Tid)
    requires Invariant(s) && s.word == 1 && t in s.threads
    ensures WordExact(Upgraded(s, t)) <==> Holds(s, t)
  {
    CountReads(s.readers, t);
  }

  /** An access taken back leaves no trace: the last of them frees the word for a writer. */
  lemma {:induction false} FreedIffNobodyHolds(s: State)
    requires Invariant(s)
    ensures s.word == 0 <==> forall t :: t in s.threads ==> !Holds(s, t)
  {
    if s.word != 0 && s.writer.None? {
      assert s.readers != multiset{};
      var t :| t in s.readers;
      assert Holds(s, t);
    }
    if s.word != 0 && s.writer.Some? {
      assert Holds(s, s.writer.value);
    }
  }

  // ---------------------------------------------------------------- what the operations achieve

  /** The other threads are where they were, and hold what they held. */
  ghost predicate Alone(s: State, s': State, t: Tid) {
    && s'.threads.Keys == s.threads.Keys && (forall u :: u in s.threads && u != t ==> s'.threads[u] == s.threads[u])
    && forall u :: u != t ==> s'.readers[u] == s.readers[u] && (s'.writer == Some(u) <==> s.writer == Some(u))
  }

  /** Thread `t` is between two operations, and holds just that. */
  ghost predicate Has(s: State, t: Tid, count: nat, write: bool) {
    t in s.threads && s.threads[t] == Thread(Idle, write) && s.readers[t] == count && (s.writer == Some(t) <==> write)
  }

  ghost predicate Unheld(s: State) {
    s.readers == multiset{} && s.writer == None
  }

  /** One more read access is to be had. */
  ghost predicate Readable(s: State) {
    s.writer == None && |s.readers| < MAX_READS
  }

  /** Write access is had if and only if nobody has any access; otherwise nothing happens. */
  lemma {:induction false} TryAcquireWriteAchieves(s: State, t: Tid)
    requires Invariant(s) && Enabled(s, t, TryAcquireWrite)
    ensures var s1 := Apply(s, t, TryAcquireWrite);
            && (Unheld(s) <==> s1.writer == Some(t) && s.writer != Some(t))
            && (!Unheld(s) ==> s1 == s)
            && (Unheld(s) ==> Enabled(s1, t, InsertIntoSet) && Has(Apply(s1, t, InsertIntoSet), t, 0, true) && Alone(s, Apply(s1, t, InsertIntoSet), t))
  {
    assert ThreadConsistent(s, t);
  }

  /** What one swap of a thread does that wants to read, and that has seen the word when it was `v`. */
  lemma {:induction false} SwapReadAchieves(s: State, t: Tid, spurious: bool)
    requires Invariant(s) && Enabled(s, t, SwapRead(spurious))
    ensures var pc, s1 := s.threads[t].pc, Apply(s, t, SwapRead(spurious));
            if s.word == pc.v && !spurious then
              Readable(s) && s1.threads[t] == Thread(Idle, false) && s1.readers == s.readers + multiset{t} && s1.writer == None && Alone(s, s1, t)
            else
              && View(s1) == View(s) && s1.word == s.word && Alone(s, s1, t) && s1.threads[t].inSet == s.threads[t].inSet
              && match pc.attempts
                 case None => s1.threads[t].pc.Reading? && s1.threads[t].pc.attempts == None && (Readable(s) <==> s1.threads[t].pc.v == s.word)
                 case Some(k) =>
                   if k <= 1 then s1.threads[t].pc == Idle
                   else s1.threads[t].pc.Reading? && s1.threads[t].pc.attempts == Some(k - 1) && (Readable(s) <==> s1.threads[t].pc.v == s.word)
  {
    assert ThreadConsistent(s, t);
  }

  /** Undisturbed, a read access is had if and only if there is no writer and fewer than 128 of them. */
  lemma {:induction false} ReadAchieves(s: State, t: Tid, attempts: Option<nat>)
    requires Invariant(s) && Enabled(s, t, LoadForRead(attempts))
    ensures attempts == Some(0) ==> Apply(s, t, LoadForRead(attempts)) == s
    ensures attempts != Some(0) ==>
              var s1 := Apply(s, t, LoadForRead(attempts));
              && View(s1) == View(s) && s1.word == s.word && Enabled(s1, t, SwapRead(false))
              && var s2 := Apply(s1, t, SwapRead(false));
                 && Alone(s, s2, t) && s2.writer == s.writer && s2.readers == s.readers + (if Readable(s) then multiset{t} else multiset{})
                 && (Readable(s) ==> s2.threads[t] == Thread(Idle, false))
                 && (!Readable(s) ==> (s2.threads[t].pc == Idle <==> attempts == Some(1)))
  {
    assert ThreadConsistent(s, t);
    var s1 := Apply(s, t, LoadForRead(attempts));
    if attempts == Some(0) {
      assert s1.threads == s.threads;
    } else {
      StepRefines(s, t, LoadForRead(attempts));
      SwapReadAchieves(s1, t, false);
    }
  }

  /** A bounded attempt to read gives up after just that many swaps that fail. */
  ghost function Failing(s: State, t: Tid, n: nat): (r: State)
    requires Invariant(s) && t in s.threads && s.threads[t].pc.Reading? && (s.threads[t].pc.attempts.Some? ==> n <= s.threads[t].pc.attempts.value)
    ensures Invariant(r) && t in r.threads && View(r) == View(s)
    ensures match s.threads[t].pc.attempts
            case None => r.threads[t].pc.Reading? && r.threads[t].pc.attempts == None
            case Some(k) =>
              if n == k && n > 0 then r.threads[t].pc == Idle else r.threads[t].pc.Reading? && r.threads[t].pc.attempts == Some(k - n)
    decreases n
  {
    if n == 0 then s
    else
      var s1 := Apply(s, t, SwapRead(true));
      StepRefines(s, t, SwapRead(true));
      SwapReadAchieves(s, t, true);
      if n == 1 then s1 else Failing(s1, t, n - 1)
  }

  /** The one reader becomes the writer, the writer stays it, and for others nothing happens. */
  lemma {:induction false} TryUpgradeAchieves(s: State, t: Tid)
    requires Invariant(s) && Enabled(s, t, TryUpgrade)
    ensures var s1 := Apply(s, t, TryUpgrade);
            if s.readers == multiset{t} then
              Enabled(s1, t, InsertIntoSet) && Has(Apply(s1, t, InsertIntoSet), t, 0, true) && Alone(s, Apply(s1, t, InsertIntoSet), t)
            else s1 == s
  {
    assert ThreadConsistent(s, t);
    CountReads(s.readers, t);
    if s.readers == multiset{t} {
      SizeOne(s.readers, t);
    }
  }

  lemma {:induction false} SizeOne(readers: multiset<Tid>, t: Tid)
    requires readers == multiset{t}
    ensures |readers| == 1
  {
  }

  /** The blocking upgrade: undisturbed it comes to the same, and it goes on waiting while there are other readers. */
  lemma {:induction false} UpgradeAchieves(s: State, t: Tid)
    requires Invariant(s) && Enabled(s, t, StartUpgrade)
    ensures var s1 := Apply(s, t, StartUpgrade);
            && View(s1) == View(s) && s1.word == s.word && Enabled(s1, t, SwapUpgrade(false)) && Apply(s1, t, SwapUpgrade(true)).word == s.word
            && var s2 := Apply(s1, t, SwapUpgrade(false));
               if s.readers == multiset{t} then
                 Enabled(s2, t, InsertIntoSet) && Has(Apply(s2, t, InsertIntoSet), t, 0, true) && Alone(s, Apply(s2, t, InsertIntoSet), t)
               else if s.writer == Some(t) then Has(s2, t, 0, true) && Alone(s, s2, t) && View(s2) == View(s)
               else s2 == s1
  {
    assert ThreadConsistent(s, t);
    CountReads(s.readers, t);
    if s.readers == multiset{t} {
      SizeOne(s.readers, t);
    }
  }

  /** The writer becomes the one reader; for readers nothing happens. */
  lemma {:induction false} DownGradeAchieves(s: State, t: Tid)
    requires Invariant(s) && Enabled(s, t, DownGrade)
    ensures var s1 := Apply(s, t, DownGrade);
            if s.writer == Some(t) then
              && Enabled(s1, t, EraseFromSet) && Has(Apply(s1, t, EraseFromSet), t, 1, false) && Alone(s, Apply(s1, t, EraseFromSet), t)
              && Apply(s1, t, EraseFromSet).readers == multiset{t}
            else s1 == s
  {
    assert ThreadConsistent(s, t);
  }

  /** A release takes away just one access of that thread: the write access, or one of its reads. */
  lemma {:induction false} ReleaseAchieves(s: State, t: Tid)
    requires Invariant(s) && Enabled(s, t, StartRelease)
    ensures var s1 := Apply(s, t, StartRelease);
            if s.writer == Some(t) then
              Enabled(s1, t, EraseFromSet) && Unheld(s1) && Has(Apply(s1, t, EraseFromSet), t, 0, false) && Alone(s, Apply(s1, t, EraseFromSet), t)
            else
              && Enabled(s1, t, SwapRelease(false)) && View(s1) == View(s) && s1.threads[t].pc.v == s1.word
              && View(Apply(s1, t, SwapRelease(false))) == Held(s.readers - multiset{t}, None) && Enabled(Apply(s1, t, SwapRelease(false)), t, EraseFromSet)
              && Has(Apply(Apply(s1, t, SwapRelease(false)), t, EraseFromSet), t, s.readers[t] - 1, false)
              && Alone(s, Apply(Apply(s1, t, SwapRelease(false)), t, EraseFromSet), t)
  {
    assert ThreadConsistent(s, t);
    CountReads(s.readers, t);
  }

  /** A swap of a release that fails takes nothing away and has seen the word for the next one. */
  lemma {:induction false} SwapReleaseRetries(s: State, t: Tid, spurious: bool)
    requires Invariant(s) && Enabled(s, t, SwapRelease(spurious)) && (spurious || s.threads[t].pc.v != s.word)
    ensures var s1 := Apply(s, t, SwapRelease(spurious));
            View(s1) == View(s) && s1.word == s.word && Alone(s, s1, t) && s1.threads[t] == Thread(Decrementing(s.word), s.threads[t].inSet)
  {
  }

  /** The thread's set is brought in line whatever the others have done meanwhile. */
  lemma {:induction false} SetsFollow(s: State, t: Tid, step: Step)
    requires Invariant(s) && Enabled(s, t, step) && (step.InsertIntoSet? || step.EraseFromSet?)
    ensures var s1 := Apply(s, t, step);
            && View(s1) == View(s) && s1.word == s.word && Alone(s, s1, t)
            && s1.threads[t] == Thread(Idle, s.writer == Some(t)) && (step.InsertIntoSet? <==> s.writer == Some(t))
  {
    assert ThreadConsistent(s, t);
  }
}
