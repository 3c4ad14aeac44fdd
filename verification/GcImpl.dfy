/**
 The collector itself, with its pages, lookup and handles. Each method computes in place what
 the functions of `References`, `Objects`, `Collection`, `Compaction` and `AddressIndex` say.
 */
module GcImpl {
  import opened Wrappers
  import L = Layout
  import R = References
  import O = Objects
  import C = Collection
  import D = Compaction
  import V = Vectors
  import S = LargeObjects
  import W = Waiting
  import A = AddressIndex
  import opened Handles
  import opened Requests

  /** `type.size * count` */
  function Bytes(objectType: ObjectType, count: nat): nat {
    objectType.size * count
  }

  /** One turn of a collection loop; a destruction may wait for a lock forever. */
  datatype Turn = Survived | Destroyed | Stuck

  /**
   How `Allocate` ends: with a handle, an exception, or not at all. `Derailed` means that a block was
   recorded which has no object, at which the code's assertions fail, and `Stopped(Corrupted)` that the
   fields of some object were lost.
   */
  datatype Allocation = Allocated(handle: Handle) | BadAlloc | MisalignedPage | Derailed | Stopped(why: Progress)

  ghost predicate Requestable(objectType: ObjectType, count: nat) {
    && objectType.size > 0
    && objectType.alignment > 0 && L.PAGE_ALIGNMENT % objectType.alignment == 0
  }

  lemma {:induction false} RequestIsAllocatable(objectType: ObjectType, count: nat)
    requires Requestable(objectType, count)
    ensures Allocatable(objectType, Bytes(objectType, count)) && (Bytes(objectType, count) == 0 <==> count == 0)
  {
    WholeTimes(objectType.size, count);
  }

  ghost function Views(pages: set<Page>): (r: map<Page, A.PageView>)
    reads pages`allocations
    ensures r.Keys == pages && forall p :: p in pages ==> r[p] == A.PageView(p.base, p.allocations)
  {
    if pages == {} then map[] else var p :| p in pages; Views(pages - {p})[p := A.PageView(p.base, p.allocations)]
  }

  ghost function Places(handles: set<Handle>): (r: map<Handle, A.Place<Page>>)
    reads handles`start, handles`size
    ensures r.Keys == handles && forall h :: h in handles ==> r[h] == A.Place(h.start, h.size, h.page)
  {
    if handles == {} then map[] else var h :| h in handles; Places(handles - {h})[h := A.Place(h.start, h.size, h.page)]
  }

  /** What a request for `size` bytes of a type must look like. */
  ghost predicate Allocatable(objectType: ObjectType, size: nat) {
    && objectType.size > 0 && IsWhole(size, objectType.size)
    && objectType.alignment > 0 && L.PAGE_ALIGNMENT % objectType.alignment == 0
  }

  lemma {:induction false} TurnContinues(base: nat, all: D.Compacted, blocks: seq<L.Block>, on: seq<Handle>, i: nat, locks: nat -> bool, clock: nat)
    requires i < |blocks| == |on| && D.Underway(base, all, ItemsOf(blocks, on), i, locks, clock)
    requires D.Typed(base, ItemOf(blocks[i], on[i])) && L.PreviousEnd(blocks, i) <= blocks[i].offset
    ensures var item, previousEnd := ItemOf(blocks[i], on[i]), L.PreviousEnd(blocks, i);
            var blocks' := blocks[i := D.Settled(base, previousEnd, item, locks(clock))];
            D.Underway(base, all, ItemsOf(blocks', on), i + 1, locks, if D.WantsMove(base, previousEnd, item) then clock + 1 else clock)
  {
    hide D.Underway, D.Settled, D.WantsMove, D.Typed;
    var items := ItemsOf(blocks, on);
    assert items[i] == ItemOf(blocks[i], on[i]);
    D.CompactionContinues(base, all, items, i, locks, clock);
    var b := D.Settled(base, L.PreviousEnd(blocks, i), items[i], locks(clock));
    assert ItemsOf(blocks[i := b], on) == items[i := items[i].(block := b)];
  }

  lemma {:induction false} KeptOn(on: seq<Handle>, blocks: seq<L.Block>, before: seq<Byte>, blocks': seq<L.Block>, between: seq<Byte>,
      blocks'': seq<L.Block>, after: seq<Byte>)
    requires Kept(on, blocks, before, blocks', between) && Kept(on, blocks', between, blocks'', after)
    ensures Kept(on, blocks, before, blocks'', after)
  {
    hide D.Carried;
    forall j | 0 <= j < |on| && on[j].Initialized() ensures D.Carried(blocks, before, blocks'', after, j) {
      D.CarriedOn(blocks, before, blocks', between, blocks'', after, j);
    }
  }

  /** Every initialized object has the bytes that it had before. */
  ghost predicate Kept(on: seq<Handle>, blocks: seq<L.Block>, before: seq<Byte>, blocks': seq<L.Block>, after: seq<Byte>)
    reads on`uninitialized, on`initializationFailed
  {
    forall j :: 0 <= j < |on| && on[j].Initialized() ==> D.Carried(blocks, before, blocks', after, j)
  }

  lemma {:induction false} KeptInPlace(on: seq<Handle>, blocks: seq<L.Block>, bytes: seq<Byte>)
    requires L.Ordered(blocks) && |on| == |blocks| && |bytes| == L.PAGE_SIZE
    ensures Kept(on, blocks, bytes, blocks, bytes)
  {
  }

  lemma {:induction false} KeptBySlide(on: seq<Handle>, blocks: seq<L.Block>, i: nat, offset: L.uint16, before: seq<Byte>, after: seq<Byte>)
    requires i < |blocks| && L.Ordered(blocks) && |on| == |blocks| && |before| == L.PAGE_SIZE && D.ChangedOnlyAt(blocks, i, offset, before, after)
    requires L.PreviousEnd(blocks, i) <= offset <= blocks[i].offset
    requires on[i].Initialized() ==> D.Carried(blocks, before, blocks[i := L.Block(offset, blocks[i].size)], after, i)
    ensures Kept(on, blocks, before, blocks[i := L.Block(offset, blocks[i].size)], after)
  {
    hide D.Carried, L.Ordered, D.ChangedOnlyAt;
    forall j | 0 <= j < |on| && on[j].Initialized() && j != i
      ensures D.Carried(blocks, before, blocks[i := L.Block(offset, blocks[i].size)], after, j)
    {
      D.OthersCarried(blocks, i, offset, before, after, j);
    }
  }

  /** The handle, and how the search for it went. */
  function HandleOf(result: Allocation): Option<Handle> {
    if result.Allocated? then Some(result.handle) else None
  }

  function ProgressOf(result: Allocation): Progress {
    if result.Stopped? then result.why else Done
  }

  /**
   Where a small request is served if no lock is refused and no live cycle exists. If some page has
   room for it at last it goes to the first such page, and no page is added. If none has, all pages
   are collected and a page is added for it, unless ids or locks run out before.
   */
  ghost predicate SmallServed(s: Snapshot, pages: seq<Page>, size: nat, alignment: nat, ids: nat, held: set<Handle>, newPage: nat, result: Allocation)
    requires Sensible(s) && alignment > 0
    reads if result.Allocated? then {result.handle} else {}
  {
    if FirstRoom(s, 0, size, alignment) < |s.pages| then
      pages == s.pages && ServedFirst(s, size, alignment, ids, held, ProgressOf(result), PageOf(HandleOf(result)), Offset(HandleOf(result)))
    else
      && (result.Allocated? ==> result.handle.page.Some? && pages == s.pages + [result.handle.page.value] && result.handle.start == newPage)
      && (!result.Allocated? ==> pages == s.pages)
      && (SnagAhead(s, size, alignment, ids, held) ==> result == Stopped(NoLockEver))
      && (result == Stopped(NoIdLeft) <==> !SnagAhead(s, size, alignment, ids, held) && IdsLeft(ids) <= |s.pages|)
  }

  /** The page of a handle, and where on it the object lies. */
  function PageOf(handle: Option<Handle>): Option<Page> {
    if handle.Some? then handle.value.page else None
  }

  function Offset(handle: Option<Handle>): Option<int>
    reads if handle.Some? then {handle.value} else {}
  {
    if handle.Some? && handle.value.page.Some? then Some(handle.value.start - handle.value.page.value.base) else None
  }

  ghost function SpansOf(list: seq<Handle>): (r: seq<Span>)
    reads list`start, list`size
    ensures |r| == |list| && forall k :: 0 <= k < |r| ==> r[k] == Span(list[k].start, list[k].size)
  {
    if list == [] then [] else SpansOf(list[..|list| - 1]) + [Span(list[|list| - 1].start, list[|list| - 1].size)]
  }

  // ---------------------------------------------------------------- fields that are left behind

  /** Those of the first `i` objects of a page that were moved although their fields are fragile. */
  ghost function Losers(h: O.Heap<Handle>, failed: set<Handle>, on: seq<Handle>, blocks: seq<L.Block>, blocks': seq<L.Block>, i: nat): set<Handle> {
    set j | 0 <= j < i && j < |on| && j < |blocks| && j < |blocks'|
      && O.Fragile(h, failed, on[j]) && blocks'[j] != blocks[j] :: on[j]
  }

  lemma NoLosers(h: O.Heap<Handle>, failed: set<Handle>, on: seq<Handle>, blocks: seq<L.Block>, blocks': seq<L.Block>)
    ensures Losers(h, failed, on, blocks, blocks', 0) == {}
  {
  }

  lemma LosersAreFragile(h: O.Heap<Handle>, failed: set<Handle>, on: seq<Handle>)
    requires C.Sturdy(h, failed) && forall j :: 0 <= j < |on| ==> on[j] !in h.destroyed
    ensures forall blocks, blocks', i {:trigger Losers(h, failed, on, blocks, blocks', i)} :: Losers(h, failed, on, blocks, blocks', i) == {}
  {
    hide O.Targets;
  }

  lemma UndisturbedIsAsFragile(h: O.Heap<Handle>, h': O.Heap<Handle>, lost: set<Handle>, failed: set<Handle>, n: Handle)
    requires O.Disturbed(h, h', lost) && n !in lost
    ensures O.Fragile(h', failed, n) <==> O.Fragile(h, failed, n)
    ensures O.Fragile(h, failed, n) ==> n in h.fields
  {
    assert n in h.fields ==> h'.fields[n] == h.fields[n] && O.Targets(h', n, 0) == O.Targets(h, n, 0);
  }

  /** One turn of the compaction, after which block `i` is `b`. */
  lemma OneMoreLoser(h: O.Heap<Handle>, h': O.Heap<Handle>, failed: set<Handle>, on: seq<Handle>, blocks: seq<L.Block>, blocks': seq<L.Block>,
      b: L.Block, i: nat, lost: bool, found: seq<Option<Handle>>)
    requires i < |on| == |blocks| == |blocks'| && V.Distinct(on) && blocks'[i..] == blocks[i..]
    requires O.Disturbed(h, h', Losers(h, failed, on, blocks, blocks', i))
    requires lost <==> b != blocks'[i] && O.Fragile(h', failed, on[i])
    ensures blocks'[i := b][i + 1..] == blocks[i + 1..]
    ensures O.Disturbed(h, if lost then O.WithFields(h', on[i], found) else h', Losers(h, failed, on, blocks, blocks'[i := b], i + 1))
    ensures Losers(h, failed, on, blocks, blocks'[i := b], i + 1) == {} <==> Losers(h, failed, on, blocks, blocks', i) == {} && !lost
  {
    hide O.Fragile, O.Disturbed;
    var before, after := Losers(h, failed, on, blocks, blocks', i), Losers(h, failed, on, blocks, blocks'[i := b], i + 1);
    assert blocks'[i..][0] == blocks[i..][0];
    assert blocks'[i := b][i + 1..] == blocks'[i..][1..] && blocks[i + 1..] == blocks[i..][1..];
    assert on[i] !in before;
    UndisturbedIsAsFragile(h, h', before, failed, on[i]);
    if lost {
      assert after == before + {on[i]};
      O.DisturbedOnce(h, h', before, on[i], found);
    } else {
      assert after == before;
    }
  }

  // ---------------------------------------------------------------- the bytes of objects

  /** The `size` bytes at the address `start`, out of memory that begins at `base`. */
  function Cut(bytes: seq<Byte>, base: nat, start: nat, size: nat): seq<Byte> {
    if base <= start && start - base + size <= |bytes| then bytes[start - base..start - base + size] else []
  }

  function BytesIn(bytes: seq<Byte>, base: nat, b: L.Block): seq<Byte> {
    Cut(bytes, base, base + b.offset, b.size)
  }

  /** The bytes of an object on a page. */
  ghost function BytesOf(handle: Handle): seq<Byte>
    reads handle`start, handle`size, if handle.page.Some? then {handle.page.value.memory} else {}
  {
    if handle.page.None? then [] else Cut(handle.page.value.memory[..], handle.page.value.base, handle.start, handle.size)
  }

  /** The bytes of the initialized objects on pages. */
  ghost function ImagesOf(handles: set<Handle>): (r: map<Handle, seq<Byte>>)
    reads handles`start, handles`size, handles`uninitialized, handles`initializationFailed
    reads set h | h in handles && h.page.Some? :: h.page.value.memory
    ensures r.Keys == set h | h in handles && h.page.Some? && h.Initialized()
    ensures forall h :: h in handles && h in r ==> r[h] == BytesOf(h)
  {
    if handles == {} then map[] else
      var h :| h in handles;
      var rest := ImagesOf(handles - {h});
      if h.page.Some? && h.Initialized() then rest[h := BytesOf(h)] else rest
  }

  /** What was in `before` is destroyed or in `after`, with the same bytes, and nothing else is. */
  ghost predicate Unharmed(before: map<Handle, seq<Byte>>, after: map<Handle, seq<Byte>>, destroyed: set<Handle>) {
    && (forall h :: h in after ==> h in before && after[h] == before[h])
    && (forall h :: h in before ==> h in after || h in destroyed)
  }

  /**
   With no live cycle nothing reachable is destroyed. On every heap, objects of which the bytes are
   known are destroyed or still there with the same bytes, and no object holds more than before.
   */
  ghost predicate Gentle(h: O.Heap<Handle>, images: map<Handle, seq<Byte>>, h': O.Heap<Handle>, images': map<Handle, seq<Byte>>) {
    C.Harmless(h, h') && C.FewerTargets(h, h') && Unharmed(images, images', h'.destroyed)
  }

  /** In particular every reachable initialized object on a page stays registered there, with its bytes. */
  lemma GentleKeepsReachable(h: O.Heap<Handle>, images: map<Handle, seq<Byte>>, h': O.Heap<Handle>, images': map<Handle, seq<Byte>>, n: Handle)
    requires Gentle(h, images, h', images') && C.Collectable(h) && n in h.refs && O.Live(h, n) && n in images
    ensures n !in h'.destroyed && n in images' && images'[n] == images[n]
  {
    hide C.FewerTargets, O.Shaped, O.Balanced, O.Live;
    C.DestroyedIsUnreachable(h);
  }

  lemma GentleSteps(h: O.Heap<Handle>, images: map<Handle, seq<Byte>>, h': O.Heap<Handle>, images': map<Handle, seq<Byte>>,
      h'': O.Heap<Handle>, images'': map<Handle, seq<Byte>>)
    requires Gentle(h, images, h', images') && Gentle(h', images', h'', images'')
    ensures Gentle(h, images, h'', images'')
  {
    hide C.Harmless;
    C.HarmlessSteps(h, h', h'');
    C.FewerStill(h, h', h'');
  }

  lemma StayingIsGentle(h: O.Heap<Handle>, images: map<Handle, seq<Byte>>)
    ensures Gentle(h, images, h, images)
  {
    hide C.Harmless;
    C.StayingIsHarmless(h);
    C.SameTargets(h);
  }

  lemma SameObjectsAreGentle(h: O.Heap<Handle>, images: map<Handle, seq<Byte>>, images': map<Handle, seq<Byte>>)
    requires Unharmed(images, images', h.destroyed)
    ensures Gentle(h, images, h, images')
  {
    hide C.Harmless, Unharmed;
    C.StayingIsHarmless(h);
    C.SameTargets(h);
  }

  /** What was orderly or sturdy before a gentle operation still is. */
  lemma GentleKeepsOrder(h: O.Heap<Handle>, images: map<Handle, seq<Byte>>, h': O.Heap<Handle>, images': map<Handle, seq<Byte>>, held: set<Handle>,
      failed: set<Handle>)
    requires Gentle(h, images, h', images')
    ensures C.Orderly(h, held) ==> C.Orderly(h', held)
    ensures C.Sturdy(h, failed) ==> C.Sturdy(h', failed)
  {
    hide C.Harmless, C.Orderly, C.Sturdy, C.FewerTargets;
    C.OrderlyStays(h, h', held);
    if C.Sturdy(h, failed) {
      C.SturdyStays(h, h', failed);
    }
  }

  lemma FewerUnharmed(handles: set<Handle>, fewer: set<Handle>, destroyed: set<Handle>)
    requires fewer <= handles <= fewer + destroyed
    ensures Unharmed(ImagesOf(handles), ImagesOf(fewer), destroyed)
  {
    hide ImagesOf, BytesOf;
  }

  lemma NewUnharmed(handles: set<Handle>, now: set<Handle>, handle: Handle, destroyed: set<Handle>)
    requires now <= handles + {handle} && handles <= now + destroyed && !handle.Initialized()
    ensures Unharmed(ImagesOf(handles), ImagesOf(now), destroyed)
  {
    hide ImagesOf, BytesOf;
  }

  /** A pass over a page, or none, is gentle. */
  lemma PassIsGentle(h: O.Heap<Handle>, on: seq<Handle>, locks: nat -> bool, clock: nat, known: set<Handle>, now: set<Handle>, done: bool)
    requires O.Shaped(h) && O.Balanced(h) && forall k :: 0 <= k < |on| ==> on[k] in h.refs
    requires now <= known <= now + (if done then C.CollectList(h, on, locks, clock).heap else h).destroyed
    ensures Gentle(h, ImagesOf(known), if done then C.CollectList(h, on, locks, clock).heap else h, ImagesOf(now))
  {
    hide O.Shaped, O.Balanced, C.CollectList, C.Harmless, C.FewerTargets, ImagesOf, Unharmed;
    C.PassIsHarmless(h, on, locks, clock);
    C.CollectListAccounts(h, on, locks, clock);
    C.StayingIsHarmless(h);
    C.SameTargets(h);
    FewerUnharmed(known, now, (if done then C.CollectList(h, on, locks, clock).heap else h).destroyed);
  }

  /** The fast pass over large objects, and a new one behind it, are gentle. */
  lemma LargeIsGentle(h: O.Heap<Handle>, list: seq<Handle>, handle: Option<Handle>, fieldCount: nat, known: set<Handle>, now: set<Handle>)
    requires O.Shaped(h) && O.Balanced(h) && S.Listed(h, list)
    requires handle.Some? ==> handle.value !in h.refs && !handle.value.Initialized()
    requires now <= known + if handle.Some? then {handle.value} else {}
    requires var h' := S.SweepFast(h, list, 0).heap;
             known <= now + (if handle.Some? then O.Register(h', handle.value, fieldCount) else h').destroyed
    ensures var h' := S.SweepFast(h, list, 0).heap;
            Gentle(h, ImagesOf(known), if handle.Some? then O.Register(h', handle.value, fieldCount) else h', ImagesOf(now))
  {
    hide O.Shaped, O.Balanced, S.Listed, S.SweepFast, O.Register, C.Harmless, C.FewerTargets, ImagesOf, Unharmed;
    var h' := S.SweepFast(h, list, 0).heap;
    if handle.Some? {
      NewUnharmed(known, now, handle.value, O.Register(h', handle.value, fieldCount).destroyed);
      S.SweepThenRegister(h, list, handle.value, fieldCount);
    } else {
      FewerUnharmed(known, now, h'.destroyed);
      S.SweepFastIsHarmless(h, list);
      S.SweepFastFewer(h, list, 0);
    }
  }

  lemma {:induction false} CarriedBytes(base: nat, blocks: seq<L.Block>, before: seq<Byte>, blocks': seq<L.Block>, after: seq<Byte>, j: nat)
    requires D.Carried(blocks, before, blocks', after, j)
    ensures BytesIn(before, base, blocks[j]) == BytesIn(after, base, blocks'[j])
  {
  }

  lemma {:induction false} KeptBytes(base: nat, on: seq<Handle>, blocks: seq<L.Block>, before: seq<Byte>, blocks': seq<L.Block>, after: seq<Byte>,
      j: nat)
    requires j < |on| == |blocks| == |blocks'| && on[j].Initialized() && Kept(on, blocks, before, blocks', after)
    ensures BytesIn(before, base, blocks[j]) == BytesIn(after, base, blocks'[j])
  {
    hide D.Carried;
    CarriedBytes(base, blocks, before, blocks', after, j);
  }

  lemma {:induction false} ClearedElsewhere(base: nat, blocks: seq<L.Block>, before: seq<Byte>, offset: nat, size: nat, after: seq<Byte>, j: nat)
    requires j < |blocks| && L.Ordered(blocks) && L.Free(blocks, offset, size) && Cleared(before, offset, size, after) && |before| == L.PAGE_SIZE
    ensures BytesIn(before, base, blocks[j]) == BytesIn(after, base, blocks[j])
  {
    var start, end := blocks[j].offset, L.End(blocks[j]);
    assert end <= offset || offset + size <= start;
    assert before[start..end] == after[start..end];
  }

  ghost predicate TypesFit(handles: set<Handle>, lookup: map<nat, Handle>) {
    && (forall h :: h in handles ==> h.objectType.size > 0 && h.objectType.alignment > 0)
    && lookup.Values <= handles
    && (forall a :: a in lookup ==> a % lookup[a].objectType.alignment == 0)
  }

  /** The bytes from `offset` on are zero, the others are as before. */
  ghost predicate Cleared(before: seq<Byte>, offset: nat, size: nat, after: seq<Byte>) {
    && |after| == |before|
    && forall k :: 0 <= k < |before| ==> after[k] == if offset <= k < offset + size then 0 else before[k]
  }

  lemma {:induction false} MoreTypesFit(handles: set<Handle>, lookup: map<nat, Handle>, handle: Handle, address: nat)
    requires TypesFit(handles, lookup) && handle.objectType.size > 0 && handle.objectType.alignment > 0
    requires address % handle.objectType.alignment == 0
    ensures TypesFit(handles + {handle}, lookup[address := handle])
  {
  }

  lemma {:induction false} WholeTimes(elementSize: nat, count: nat)
    requires elementSize > 0
    ensures IsWhole(elementSize * count, elementSize)
  {
    L.MultipleIsAligned(count, elementSize);
  }

  lemma {:induction false} FewerTypesFit(handles: set<Handle>, lookup: map<nat, Handle>, address: nat)
    requires TypesFit(handles, lookup)
    ensures TypesFit(handles, lookup - {address})
  {
  }

  lemma {:induction false} RelocatedTypesFit(handles: set<Handle>, lookup: map<nat, Handle>, address: nat, newAddress: nat)
    requires TypesFit(handles, lookup) && address in lookup && newAddress % lookup[address].objectType.alignment == 0
    ensures TypesFit(handles, A.Insert(lookup - {address}, newAddress, lookup[address]))
  {
  }

  /** An array of `size` bytes holds whole elements only. */
  ghost predicate IsWhole(size: nat, elementSize: nat) {
    elementSize > 0 && size % elementSize == 0
  }

  ghost predicate AllWhole(handles: set<Handle>)
    reads handles`size
  {
    forall h :: h in handles ==> IsWhole(h.size, h.objectType.size)
  }

  ghost predicate NoneMarked(handles: set<Handle>)
    reads handles`markBits
  {
    forall h :: h in handles ==> h.markBits == {}
  }

  lemma {:induction false} MoreAreWhole(handles: set<Handle>, handle: Handle)
    requires AllWhole(handles) && NoneMarked(handles) && IsWhole(handle.size, handle.objectType.size) && handle.markBits == {}
    ensures AllWhole(handles + {handle}) && NoneMarked(handles + {handle})
  {
  }

  class Gc {
    /** `objectHandles`: every handle ever constructed, tombstones included. */
    var handles: set<Handle>
    var pages: seq<Page>
    var largeObjects: seq<Handle>
    var lookup: map<nat, Handle>
    var gcCount: nat

    /** The environment: the outcome of every attempt to take a lock, and the attempts made. */
    const locks: nat -> bool
    var clock: nat

    /** The objects of which the thread that calls the collector has the locks, by pins of its own. */
    var held: set<Handle>

    constructor (locks: nat -> bool)
      ensures Valid() && this.locks == locks && handles == {} && pages == [] && largeObjects == [] && lookup == map[]
      ensures gcCount == 0 && clock == 0 && held == {}
    {
      handles, pages, largeObjects, lookup := {}, [], [], map[];
      gcCount, this.locks, clock, held := 0, locks, 0, {};
    }

    ghost function Objects(): (h: O.Heap<Handle>)
      ensures h.refs.Keys == handles
      reads this`handles, handles`referencedBy, handles`fields, handles`rootHandleCount
      reads handles`garbage, handles`uninitialized, handles`destroyed
    {
      HeapOf(handles)
    }

    ghost function Addresses(): A.Index<Handle, Page>
      reads this`handles, this`pages, this`largeObjects, this`lookup, handles`start, handles`size
      reads pages`allocations
    {
      A.Index(Views(set p | p in pages), largeObjects, lookup, Places(handles))
    }

    lemma ViewFlag(handle: Handle)
      requires handle in handles
      ensures handle.garbage <==> handle in Objects().flagged
      ensures handle.uninitialized <==> handle in Objects().uninitialized
      ensures handle in Objects().roots && Objects().roots[handle] == handle.rootHandleCount
    {
      hide References, Fields, RootCounts;
    }

    lemma ViewLarge()
      ensures Addresses().large == largeObjects && Addresses().lookup == lookup
      ensures forall h :: h in handles ==> h in Addresses().places && Addresses().places[h] == A.Place(h.start, h.size, h.page)
      ensures forall h :: h in Addresses().places ==> h in handles
    {
      hide HeapOf, Views, Places;
    }

    lemma View(page: Page)
      requires page in pages
      ensures page in Addresses().pages && Addresses().pages[page] == A.PageView(page.base, page.allocations)
      ensures Addresses().lookup == lookup
    {
      hide HeapOf, Views, Places;
    }

    /** The handles whose mark bit for the collector `id` is set. */
    ghost function Marked(id: nat): set<Handle>
      reads this`handles, handles`markBits
    {
      set h | h in handles && id in h.markBits
    }

    /** Types are as the language makes them, and objects lie where their types want them. */
    ghost predicate TypesGood()
      reads this`handles, this`lookup
    {
      TypesFit(handles, lookup)
    }

    /** Every object is an array of whole elements. */
    ghost predicate WholeArrays()
      reads this`handles, handles`size
    {
      AllWhole(handles)
    }

    ghost predicate PagesDistinct()
      reads this`pages
    {
      && (forall p :: p in pages ==> p.memory.Length == L.PAGE_SIZE && p.base % L.PAGE_ALIGNMENT == 0)
      && (forall p, q :: p in pages && q in pages && p != q ==> p.memory != q.memory)
      && (forall i, j :: 0 <= i < j < |pages| ==> pages[i] != pages[j])
    }

    /** No mark bit is set between operations. */
    ghost predicate Unmarked()
      reads this`handles, handles`markBits
    {
      NoneMarked(handles)
    }

    /** Everything is where pages, lookup and handles say that it is. */
    ghost predicate Arranged()
      reads this`handles, this`pages, this`largeObjects, this`lookup
      reads handles`referencedBy, handles`fields, handles`rootHandleCount
      reads handles`garbage, handles`uninitialized, handles`destroyed, handles`start, handles`size, handles`markBits
      reads pages`allocations
    {
      && A.Agrees(Addresses()) && A.Undead(Addresses(), Objects().destroyed)
      && TypesGood() && WholeArrays() && PagesDistinct() && Unmarked()
    }

    /** What every operation keeps, whatever the graph looks like and whichever locks are refused. */
    ghost predicate Valid()
      reads this`handles, this`pages, this`largeObjects, this`lookup
      reads handles`referencedBy, handles`fields, handles`rootHandleCount
      reads handles`garbage, handles`uninitialized, handles`destroyed, handles`start, handles`size, handles`markBits
      reads pages`allocations
    {
      O.Shaped(Objects()) && O.Balanced(Objects()) && Arranged()
    }

    /** The handles whose initialization failed. */
    ghost function Failed(): set<Handle>
      reads this`handles, handles`initializationFailed
    {
      set h | h in handles && h.initializationFailed
    }

    // -------------------------------------------------------------- the search

    /** `TryFindRootFor`. */
    method TryFindRootFor(handle: Handle, id: nat) returns (found: bool)
      requires handle in handles && R.WellFormed(O.GraphOf(Objects()))
      modifies this`clock, handles`garbage, handles`markBits
      ensures var h := old(Objects());
              var o := R.Search(O.GraphOf(h), h.flagged, old(Marked(id)), handle, locks, old(clock));
              found == o.found && Objects() == h.(flagged := o.flagged) && clock == o.clock
      ensures forall m :: m in handles ==> m.markBits == old(m.markBits)
      decreases handles - Marked(id), 0
    {
      hide Objects, HeapOf;
      ViewFlag(handle);
      assert Objects().(flagged := Objects().flagged) == Objects();
      if id in handle.markBits {
        return false;
      }
      if handle.rootHandleCount > 0 {
        return true;
      }
      if handle.garbage {
        return false;
      }
      ghost var marked := Marked(id);
      handle.markBits := handle.markBits + {id};
      assert Marked(id) == marked + {handle};
      found := AnyReferenceFindsRoot(handle, id);
      handle.markBits := handle.markBits - {id};
    }

    /** The `any_of` over the references of a marked object. */
    method AnyReferenceFindsRoot(handle: Handle, id: nat) returns (found: bool)
      requires handle in handles && R.WellFormed(O.GraphOf(Objects()))
      modifies this`clock, handles`garbage, handles`markBits
      ensures var h := old(Objects());
              var o := R.SearchList(O.GraphOf(h), h.flagged, old(Marked(id)), h.refs[handle], locks, old(clock));
              found == o.found && Objects() == h.(flagged := o.flagged) && clock == o.clock
      ensures forall m :: m in handles ==> m.markBits == old(m.markBits)
      decreases handles - Marked(id), 2
    {
      hide Views, Places, References, Fields, RootCounts;
      ghost var h, marked := Objects(), Marked(id);
      ghost var g := O.GraphOf(h);
      found := false;
      var i := 0;
      while i < |handle.referencedBy| && !found
        invariant i <= |handle.referencedBy| && Objects() == h.(flagged := Objects().flagged)
        invariant forall m :: m in handles ==> m.markBits == old(m.markBits)
        invariant R.SearchList(g, h.flagged, marked, h.refs[handle], locks, old(clock)) ==
          if found then R.Outcome(true, Objects().flagged, clock)
          else R.SearchList(g, Objects().flagged, marked, h.refs[handle][i..], locks, clock)
        decreases |handle.referencedBy| - i
      {
        ghost var list := h.refs[handle][i..];
        assert list[1..] == h.refs[handle][i + 1..];
        R.SearchListByOne(g, Objects().flagged, marked, list, locks, clock);
        assert O.GraphOf(Objects()) == g && Marked(id) == marked;
        found := ReferenceFindsRoot(handle.referencedBy[i], id);
        i := i + 1;
      }
    }

    /** The condition of that `any_of`, for one reference. */
    method ReferenceFindsRoot(referencedBy: Handle, id: nat) returns (found: bool)
      requires referencedBy in handles && R.WellFormed(O.GraphOf(Objects()))
      modifies this`clock, handles`garbage, handles`markBits
      ensures var h := old(Objects());
              var o := R.SearchList(O.GraphOf(h), h.flagged, old(Marked(id)), [referencedBy], locks, old(clock));
              found == o.found && Objects() == h.(flagged := o.flagged) && clock == o.clock
      ensures forall m :: m in handles ==> m.markBits == old(m.markBits)
      decreases handles - Marked(id), 1
    {
      hide Views, Places, References, Fields, RootCounts;
      if referencedBy.rootHandleCount > 0 {
        return true;
      }
      if referencedBy.garbage {
        return false;
      }
      var acquired := locks(clock);
      clock := clock + 1;
      if !acquired {
        return true;
      }
      found := TryFindRootFor(referencedBy, id);
      if !found {
        referencedBy.MarkGarbage(handles);
      }
    }

    // -------------------------------------------------------------- destroying

    /**
     `CallDestructorForObject`: out of the lookup, then every field of an initialized object to
     null, which may wait forever.
     */
    method CallDestructorForObject(handle: Handle) returns (finished: bool)
      requires handle in handles && O.Shaped(Objects()) && O.Balanced(Objects()) && handle.start in lookup
      modifies this`lookup, handles`referencedBy, handles`garbage, handle`fields
      ensures Addresses() == old(Addresses()).(lookup := old(lookup) - {handle.start})
      ensures handle in old(Objects()).fields && (finished <==> !O.Waits(old(Objects()), handle, held))
      ensures finished ==> Objects() == if handle.uninitialized then old(Objects()) else O.NullFields(old(Objects()), handle, 0)
    {
      hide HeapOf, Views, Places, O.WaitsFrom;
      ViewFlag(handle);
      EraseFromLookup(handle.start);
      finished := true;
      if !handle.uninitialized {
        finished := handle.ClearFields(held, handles);
      }
    }

    method EraseFromLookup(address: nat)
      modifies this`lookup
      ensures Addresses() == old(Addresses()).(lookup := old(lookup) - {address})
      ensures Objects() == old(Objects())
    {
      hide HeapOf, Views, Places;
      lookup := lookup - {address};
    }

    method MarkGarbage(handle: Handle)
      requires handle in handles && O.Shaped(Objects()) && O.Balanced(Objects())
      modifies handle`garbage
      ensures Objects() == old(Objects()).(flagged := old(Objects()).flagged + {handle})
      ensures O.Shaped(Objects()) && O.Balanced(Objects()) && Addresses() == old(Addresses())
    {
      hide HeapOf, Views, Places;
      handle.MarkGarbage(handles);
      assert O.GraphOf(Objects()) == O.GraphOf(old(Objects()));
      O.FlagsDoNotBalance(old(Objects()), Objects());
    }

    method RemoveAllocation(page: Page, span: Span, ghost b: L.Block)
      requires page in pages && span == Span(page.base + b.offset, b.size)
      modifies page`allocations
      ensures Addresses() == old(Addresses()).(pages := old(Addresses()).pages[page := A.PageView(page.base, L.Remove(old(page.allocations), b))])
      ensures Objects() == old(Objects())
    {
      hide HeapOf, Views, Places;
      page.RemoveAllocation(span);
    }

    /** `objectHandles.Remove`, which leaves the handle where it is: a tombstone, with its lock taken. */
    method Bury(handle: Handle)
      requires handle in handles
      modifies handle`destroyed
      ensures Objects() == old(Objects()).(destroyed := old(Objects()).destroyed + {handle}) && Addresses() == old(Addresses())
    {
      hide Views, Places, References, Fields, RootCounts;
      handle.destroyed := true;
    }

    /** The part of `DestroyObject` that concerns the object itself. */
    method Finalize(handle: Handle) returns (finished: bool)
      requires handle in handles && O.Shaped(Objects()) && O.Balanced(Objects()) && handle.start in lookup
      modifies this`lookup, handles`referencedBy, handles`garbage, handle`fields
      ensures handle in old(Objects()).fields && (finished <==> !O.Waits(old(Objects()), handle, held))
      ensures finished ==> Objects() == O.Finalize(old(Objects()), handle)
      ensures Addresses() == old(Addresses()).(lookup := old(lookup) - {handle.start})
    {
      hide Objects, Addresses, HeapOf, O.Waits;
      ViewFlag(handle);
      MarkGarbage(handle);
      O.FlagsDoNotWait(old(Objects()), Objects(), handle, held);
      finished := CallDestructorForObject(handle);
    }

    /**
     `DestroyObject` for the object of the block at index `i`; its handle stays as a tombstone. It
     never returns if the object holds itself or a destroyed object.
     */
    method DestroyObject(page: Page, handle: Handle, ghost i: nat) returns (finished: bool)
      requires handle in handles && page in pages && O.Shaped(Objects()) && O.Balanced(Objects())
      requires i < |page.allocations| && page.base + page.allocations[i].offset == handle.start && page.allocations[i].size == handle.size
      requires handle.start in lookup
      modifies this`lookup, page`allocations, handles`referencedBy, handles`garbage, handle`fields, handle`destroyed
      ensures handle in old(Objects()).fields && (finished <==> !O.Waits(old(Objects()), handle, held))
      ensures finished ==> Objects() == O.Destroy(old(Objects()), handle)
      ensures finished ==> Addresses() == A.Unregister(old(Addresses()), page, old(page.allocations[i]))
    {
      hide Objects, Addresses, HeapOf, O.Finalize, O.Shaped, O.Balanced, O.Waits, L.Remove;
      View(page);
      finished := Finalize(handle);
      if finished {
        RemoveAllocation(page, Span(handle.start, handle.size), page.allocations[i]);
        Bury(handle);
      }
    }

    // -------------------------------------------------------------- collecting

    /** `GetHandleForObjectAllocation`; its assertion is the precondition. */
    function HandleFor(address: nat): Handle
      requires address in lookup
      reads this`lookup
    {
      lookup[address]
    }

    /** The handles of the objects on a page. */
    ghost function On(page: Page): (r: seq<Handle>)
      reads this`lookup, page`allocations
      ensures forall i :: 0 <= i < |r| ==> r[i] in lookup.Values
    {
      A.Found(lookup, page.base, page.allocations)
    }

    lemma HandleOn(page: Page, i: nat)
      requires A.Agrees(Addresses()) && page in pages
      ensures |On(page)| == |page.allocations|
      ensures i < |page.allocations| ==>
                page.base + page.allocations[i].offset in lookup && On(page)[i] == lookup[page.base + page.allocations[i].offset]
    {
      hide A.Agrees;
      A.FoundOnPage(Addresses(), page);
    }

    /** The bytes of the initialized objects on pages. */
    ghost function Images(): map<Handle, seq<Byte>>
      reads this`lookup, lookup.Values`start, lookup.Values`size, lookup.Values`uninitialized, lookup.Values`initializationFailed
      reads set h | h in lookup.Values && h.page.Some? :: h.page.value.memory
    {
      ImagesOf(lookup.Values)
    }

    lemma BytesInBlock(h: Handle, page: Page, b: L.Block)
      requires h.page == Some(page) && h.start == page.base + b.offset && h.size == b.size
      ensures BytesOf(h) == BytesIn(page.memory[..], page.base, b)
    {
    }

    /** The bytes of the objects on a page are those of its blocks. */
    lemma BytesAreInBlocks(page: Page, on: seq<Handle>)
      requires Valid() && page in pages && on == On(page)
      ensures page.memory.Length == L.PAGE_SIZE && |on| == |page.allocations|
      ensures forall j :: 0 <= j < |on| ==>
                && on[j].page == Some(page) && on[j].start == page.base + page.allocations[j].offset && on[j].size == page.allocations[j].size
                && BytesOf(on[j]) == BytesIn(page.memory[..], page.base, page.allocations[j])
    {
      hide Valid, Arranged, On, L.Ordered, Objects, BytesOf, BytesIn;
      ValidIsArranged();
      PageIsLaid(page);
      forall j | 0 <= j < |on|
        ensures on[j].page == Some(page) && on[j].start == page.base + page.allocations[j].offset && on[j].size == page.allocations[j].size
        ensures BytesOf(on[j]) == BytesIn(page.memory[..], page.base, page.allocations[j])
      {
        ObjectOfBlock(page, j);
        BytesInBlock(on[j], page, page.allocations[j]);
      }
    }

    lemma WhereObjectsLie()
      requires Valid()
      ensures forall h :: h in lookup.Values && h.page.Some? ==> h.page.value in pages && h in On(h.page.value)
    {
      hide A.Agrees, A.Undead, O.Shaped, O.Balanced, HeapOf, Addresses, A.Found;
      ViewLarge();
      ViewPages();
      forall h | h in lookup.Values && h.page.Some? ensures h.page.value in pages && h in On(h.page.value) {
        A.PlacedIsListed(Addresses(), h, h.page.value);
      }
    }

    /** Handles that were looked up once still are, unless they have been destroyed. */
    lemma AllAreThere(known: set<Handle>)
      requires Valid() && known <= handles
      ensures known <= lookup.Values + Objects().destroyed
    {
      hide HeapOf, Addresses, A.Agrees, A.Undead, O.Shaped, O.Balanced;
      ViewLarge();
      forall h | h in known ensures h in lookup.Values + Objects().destroyed {
        A.UndeadIsLookedUp(Addresses(), Objects().destroyed, h);
      }
    }

    lemma ImagesStay(images: map<Handle, seq<Byte>>, known: set<Handle>)
      requires Valid() && known <= handles && forall h :: h in lookup.Values && h.page.Some? && h.Initialized() ==> h in images
      requires forall h :: h in images ==> h in known && h.page.Some? && h.Initialized() && BytesOf(h) == images[h]
      ensures Unharmed(images, Images(), Objects().destroyed)
    {
      hide Valid, ImagesOf, BytesOf, Objects;
      AllAreThere(known);
    }

    lemma LookedUpAreHandles()
      requires Valid()
      ensures lookup.Values <= handles
    {
      hide HeapOf, Addresses, A.Agrees, A.Undead, O.Shaped, O.Balanced;
    }

    lemma NoneIsDestroyed(page: Page)
      requires Valid() && page in pages
      ensures forall j :: 0 <= j < |On(page)| ==> On(page)[j] !in Objects().destroyed
    {
      hide HeapOf, Addresses, A.Agrees, O.Shaped, O.Balanced, A.Found;
      ViewLarge();
    }

    lemma ValidIsArranged()
      requires Valid()
      ensures Arranged()
    {
      hide Arranged;
    }

    lemma StillValid(h: O.Heap<Handle>)
      requires O.Shaped(h) && O.Balanced(h) && Arranged() && O.Disturbed(h, Objects(), {})
      ensures Valid() && Objects() == h
    {
      hide Arranged, O.Shaped, O.Balanced, Objects, O.Disturbed;
      O.NoneDisturbed(h);
    }

    /** One attempt to take some lock. */
    method TryAcquire() returns (acquired: bool)
      modifies this`clock
      ensures acquired == locks(old(clock)) && clock == old(clock) + 1
      ensures Objects() == old(Objects()) && Addresses() == old(Addresses())
    {
      hide HeapOf, Views, Places;
      acquired := locks(clock);
      clock := clock + 1;
    }

    /** The write lock is taken and given back, then a read lock taken; the object is alive if either is refused. */
    method TryLockForInspection() returns (acquired: bool)
      modifies this`clock
      ensures acquired == (locks(old(clock)) && locks(old(clock) + 1))
      ensures clock == old(clock) + if locks(old(clock)) then 2 else 1
      ensures Objects() == old(Objects()) && Addresses() == old(Addresses())
    {
      acquired := TryAcquire();
      if acquired {
        acquired := TryAcquire();
      }
    }

    /** The conditions under which the collection loop destroys an object. */
    method IsDead(handle: Handle, id: nat) returns (dead: bool)
      requires handle in handles && O.Shaped(Objects()) && O.Balanced(Objects()) && Marked(id) == {}
      modifies this`clock, handles`garbage, handles`markBits
      ensures var r := C.Judge(old(Objects()), handle, locks, old(clock));
              dead == r.dead && Objects() == r.heap && clock == r.clock
      ensures Addresses() == old(Addresses()) && forall m :: m in handles ==> m.markBits == old(m.markBits)
    {
      hide Objects, Addresses, HeapOf;
      ViewFlag(handle);
      if handle.rootHandleCount > 0 {
        return false;
      }
      var acquired := TryLockForInspection();
      if !acquired {
        return false;
      }
      if handle.garbage {
        return true;
      }
      var found := TryFindRootFor(handle, id);
      return !found;
    }

    /** One turn of the loop of `CollectOnPage`, for the block at index `i`. */
    method InspectBlock(page: Page, handle: Handle, i: nat, id: nat) returns (turn: Turn)
      requires handle in handles && page in pages && O.Shaped(Objects()) && O.Balanced(Objects()) && Marked(id) == {}
      requires i < |page.allocations| && page.base + page.allocations[i].offset == handle.start && page.allocations[i].size == handle.size
      requires handle.start in lookup
      modifies this`clock, this`lookup, page`allocations
      modifies handles`referencedBy, handles`garbage, handles`fields, handles`destroyed, handles`markBits
      ensures turn.Stuck? <==> W.InspectWaits(old(Objects()), handle, held, locks, old(clock))
      ensures !turn.Stuck? ==>
                var r := C.Inspect(old(Objects()), handle, locks, old(clock));
                turn.Destroyed? == r.dead && Objects() == r.heap && clock == r.clock
      ensures !turn.Stuck? ==>
                Addresses() == if turn.Destroyed? then A.Unregister(old(Addresses()), page, old(page.allocations[i])) else old(Addresses())
      ensures forall h :: h in handles ==> h.markBits == old(h.markBits)
    {
      hide Objects, Addresses, HeapOf, C.Judge, O.Destroy, O.Shaped, O.Balanced, O.Waits, A.Unregister;
      turn := Survived;
      var dead := IsDead(handle, id);
      if dead {
        var finished := DestroyObject(page, handle, i);
        turn := if finished then Destroyed else Stuck;
      }
    }

    /** One turn with all that it keeps. */
    method CollectTurn(page: Page, i: nat, id: nat) returns (turn: Turn)
      requires Valid() && page in pages && i < |page.allocations| && page.base + page.allocations[i].offset in lookup
      modifies this`clock, this`lookup, page`allocations
      modifies handles`referencedBy, handles`garbage, handles`fields, handles`destroyed, handles`markBits
      ensures turn.Stuck? <==> W.InspectWaits(old(Objects()), old(lookup[page.base + page.allocations[i].offset]), held, locks, old(clock))
      ensures !turn.Stuck? ==> Valid()
      ensures !turn.Stuck? ==>
                var r := C.Inspect(old(Objects()), old(lookup[page.base + page.allocations[i].offset]), locks, old(clock));
                turn.Destroyed? == r.dead && Objects() == r.heap && clock == r.clock
      ensures |old(On(page))| == |old(page.allocations)|
      ensures !turn.Stuck? ==> A.SameElsewhere(old(Addresses()), Addresses(), page)
      ensures !turn.Stuck? ==> On(page) == if turn.Destroyed? then old(On(page))[..i] + old(On(page))[i + 1..] else old(On(page))
    {
      hide Objects, Addresses, HeapOf, TypesFit, A.SameElsewhere;
      hide A.Agrees, A.Undead, A.Findable, A.Found, A.PageGood, A.EntriesPlaced, C.Inspect, O.Shaped, O.Balanced, W.InspectWaits;
      View(page);
      ViewLarge();
      ghost var x, h := Addresses(), Objects();
      A.AgreesOnPage(x, page, i);
      A.FoundLength(lookup, page.base, page.allocations);
      FewerTypesFit(handles, lookup, page.base + page.allocations[i].offset);
      var handle := HandleFor(page.base + page.allocations[i].offset);
      turn := InspectBlock(page, handle, i, id);
      if turn.Stuck? {
        return;
      }
      View(page);
      A.TurnElsewhere(x, Addresses(), page, i, turn.Destroyed?);
      C.InspectAccounts(h, handle, locks, old(clock));
      assert Objects().destroyed == if turn.Destroyed? then h.destroyed + {handle} else h.destroyed;
      if turn.Destroyed? {
        A.UnregisterDuringPass(x, page, i, handle, h.destroyed);
        assert Addresses().lookup == x.lookup - {page.base + x.pages[page].blocks[i].offset};
      }
      assert O.Shaped(Objects()) && O.Balanced(Objects()) && A.Agrees(Addresses());
      assert A.Undead(Addresses(), Objects().destroyed);
      assert TypesGood();
      assert WholeArrays();
      assert PagesDistinct();
      assert Unmarked();
    }

    /**
     `CollectOnPage`. Collector ids are never given back, so from the ninth pass on it waits for
     one forever; and so it does for the lock of an object that was destroyed.
     */
    method CollectOnPage(page: Page) returns (progress: Progress)
      requires Valid() && page in pages
      modifies this`gcCount, this`clock, this`lookup, page`allocations
      modifies handles`referencedBy, handles`garbage, handles`fields, handles`destroyed, handles`markBits
      ensures !progress.Corrupted?
      ensures progress.NoIdLeft? <==> old(gcCount) >= MAX_COLLECTORS
      ensures forall i :: 0 <= i < |old(On(page))| ==> old(On(page))[i] in handles
      ensures progress.NoLockEver? <==>
                old(gcCount) < MAX_COLLECTORS && W.PassWaits(old(Objects()), old(On(page)), held, locks, old(clock))
      ensures !progress.NoLockEver? ==> Valid()
      ensures progress.Done? ==> A.SameElsewhere(old(Addresses()), Addresses(), page)
      ensures progress.NoIdLeft? ==>
                gcCount == old(gcCount) && clock == old(clock) && Objects() == old(Objects()) && Addresses() == old(Addresses())
      ensures progress.Done? ==>
                var r := C.CollectList(old(Objects()), old(On(page)), locks, old(clock));
                gcCount == old(gcCount) + 1 && Objects() == r.heap && On(page) == r.survivors && clock == r.clock
    {
      hide Objects, Addresses, HeapOf, Valid, On, C.CollectList, W.PassWaits, A.SameElsewhere;
      ValidIsShaped();
      OnAreHandles(page);
      if gcCount >= MAX_COLLECTORS {
        return NoIdLeft;
      }
      var id := gcCount;
      gcCount := gcCount + 1;
      var finished := CollectBlocks(page, id, Objects(), On(page), clock);
      return if finished then Done else NoLockEver;
    }

    /** The loop of `CollectOnPage`. */
    method CollectBlocks(page: Page, id: nat, ghost h: O.Heap<Handle>, ghost on: seq<Handle>, ghost time: nat) returns (finished: bool)
      requires Valid() && page in pages && h == Objects() && on == On(page) && time == clock
      requires O.Shaped(h) && O.Balanced(h) && forall i :: 0 <= i < |on| ==> on[i] in h.refs
      modifies this`clock, this`lookup, page`allocations
      modifies handles`referencedBy, handles`garbage, handles`fields, handles`destroyed, handles`markBits
      ensures finished <==> !W.PassWaits(h, on, held, locks, time)
      ensures finished ==> A.SameElsewhere(old(Addresses()), Addresses(), page)
      ensures finished ==> Valid() && C.CollectList(h, on, locks, time) == C.Pass(Objects(), On(page), clock)
    {
      hide Objects, Addresses, HeapOf, Valid, On, C.CollectList, W.PassWaits, W.OnTheWay, A.SameElsewhere;
      ghost var all := C.CollectList(h, on, locks, time);
      ghost var never := W.PassWaits(h, on, held, locks, time);
      W.WayStarts(h, on, held, locks, time);
      ValidIsShaped();
      HandleOn(page, 0);
      ghost var x := Addresses();
      A.SameAsBefore(x, page);
      var i: nat := 0;
      finished := true;
      while finished && i < |page.allocations|
        invariant finished ==> Valid() && i <= |page.allocations| == |On(page)|
        invariant finished ==> W.OnTheWay(all, never, Objects(), On(page), i, held, locks, clock)
        invariant finished ==> A.SameElsewhere(old(Addresses()), Addresses(), page)
        invariant !finished ==> never
        decreases finished, |page.allocations| - i
      {
        ghost var before := Addresses();
        finished, i := NextTurn(page, i, id, all, never);
        if finished {
          A.SameElsewhereSteps(x, before, Addresses(), page);
        }
      }
      if finished {
        W.WayEnds(all, never, Objects(), On(page), held, locks, clock);
      }
    }

    /** A turn of the loop and the index to go on with, which stays where it is when an object was destroyed. */
    method NextTurn(page: Page, i: nat, id: nat, ghost all: C.Pass<Handle>, ghost never: bool) returns (finished: bool, next: nat)
      requires Valid() && page in pages && i < |page.allocations| == |On(page)|
      requires W.OnTheWay(all, never, Objects(), On(page), i, held, locks, clock)
      modifies this`clock, this`lookup, page`allocations
      modifies handles`referencedBy, handles`garbage, handles`fields, handles`destroyed, handles`markBits
      ensures !finished ==> never
      ensures finished ==> A.SameElsewhere(old(Addresses()), Addresses(), page)
      ensures finished ==> Valid() && next <= |page.allocations| == |On(page)|
      ensures finished ==> |page.allocations| - next < |old(page.allocations)| - i
      ensures finished ==> W.OnTheWay(all, never, Objects(), On(page), next, held, locks, clock)
    {
      hide Objects, Addresses, HeapOf, Valid, On, C.Inspect, W.InspectWaits, W.OnTheWay, A.SameElsewhere;
      ValidIsShaped();
      HandleOn(page, i);
      W.WayContinues(all, never, Objects(), On(page), i, held, locks, clock);
      var turn := CollectTurn(page, i, id);
      finished, next := !turn.Stuck?, if turn.Survived? then i + 1 else i;
      if finished {
        ValidIsShaped();
        HandleOn(page, 0);
      }
    }

    // -------------------------------------------------------------- large objects

    /** `DestroyLargeObject`; giving the memory back is up to the allocator. */
    method DestroyLargeObject(handle: Handle) returns (finished: bool)
      requires handle in handles && O.Shaped(Objects()) && O.Balanced(Objects()) && handle.start in lookup
      modifies this`lookup, handles`referencedBy, handles`garbage, handle`fields, handle`destroyed
      ensures handle in old(Objects()).fields && (finished <==> !O.Waits(old(Objects()), handle, held))
      ensures finished ==> Objects() == O.Destroy(old(Objects()), handle)
      ensures Addresses() == old(Addresses()).(lookup := old(lookup) - {handle.start})
    {
      hide Objects, Addresses, HeapOf, O.Finalize, O.Shaped, O.Balanced, O.Waits;
      finished := Finalize(handle);
      if finished {
        Bury(handle);
      }
    }

    method SetLargeObjects(list: seq<Handle>)
      modifies this`largeObjects
      ensures Objects() == old(Objects()) && Addresses() == old(Addresses()).(large := list)
      ensures largeObjects == list
    {
      hide HeapOf, Views, Places;
      largeObjects := list;
    }

    lemma LargeAreListed()
      requires A.Agrees(Addresses())
      ensures S.Listed(Objects(), largeObjects)
      ensures forall i :: 0 <= i < |largeObjects| ==>
                largeObjects[i] in handles && largeObjects[i].start in lookup && lookup[largeObjects[i].start] == largeObjects[i]
    {
      hide A.Agrees;
      A.LargeIsRegistered(Addresses());
    }

    /** Destroys the large object at index `i`, which the last one replaces. */
    method UnlinkLarge(i: nat) returns (finished: bool)
      requires O.Shaped(Objects()) && O.Balanced(Objects()) && i < |largeObjects|
      requires largeObjects[i] in handles && largeObjects[i].start in lookup
      modifies this`lookup, this`largeObjects, handles`referencedBy, handles`garbage, handles`fields, handles`destroyed
      ensures old(largeObjects[i]) in old(Objects()).fields && (finished <==> !O.Waits(old(Objects()), old(largeObjects[i]), held))
      ensures finished ==> Objects() == O.Destroy(old(Objects()), old(largeObjects[i]))
      ensures finished ==>
                Addresses() == old(Addresses()).(lookup := old(lookup) - {old(largeObjects[i].start)}, large := largeObjects)
      ensures finished ==> largeObjects == V.SwapPop(old(largeObjects), i)
    {
      hide Objects, Addresses, HeapOf, O.Shaped, O.Balanced, O.Destroy, O.Waits, V.SwapPop;
      V.SwapThenPop(largeObjects, i);
      var last := |largeObjects| - 1;
      var swapped := largeObjects[i := largeObjects[last]][last := largeObjects[i]];
      SetLargeObjects(swapped);
      finished := DestroyLargeObject(largeObjects[last]);
      if finished {
        SetLargeObjects(largeObjects[..last]);
      }
    }

    method RemoveLarge(i: nat) returns (finished: bool)
      requires Valid() && i < |largeObjects|
      modifies this`lookup, this`largeObjects, handles`referencedBy, handles`garbage, handles`fields, handles`destroyed
      ensures S.Listed(old(Objects()), old(largeObjects)) && old(largeObjects[i]) in old(Objects()).fields
      ensures finished <==> !O.Waits(old(Objects()), old(largeObjects[i]), held)
      ensures finished ==> Valid() && largeObjects == V.SwapPop(old(largeObjects), i) && S.Listed(Objects(), largeObjects)
      ensures finished ==> lookup.Values <= old(lookup.Values)
      ensures finished ==> Objects() == O.Destroy(old(Objects()), old(largeObjects[i]))
    {
      hide Objects, Addresses, HeapOf, A.Agrees, A.Undead, O.Shaped, O.Balanced, O.Destroy, O.Waits, V.SwapPop, TypesFit;
      ghost var x, h, n := Addresses(), Objects(), largeObjects[i];
      LargeAreListed();
      ViewLarge();
      A.UnregisterLargeDuringPass(x, i, h.destroyed);
      C.DestroyAccounts(h, n);
      C.DestroyKeepsShape(h, n);
      FewerTypesFit(handles, lookup, n.start);
      finished := UnlinkLarge(i);
      if finished {
        ViewLarge();
        LargeAreListed();
      }
    }

    /** `CollectLargeObjectsFast`. */
    method CollectLargeObjectsFast() returns (finished: bool)
      requires Valid()
      modifies this`lookup, this`largeObjects, handles`referencedBy, handles`garbage, handles`fields, handles`destroyed
      ensures S.Listed(old(Objects()), old(largeObjects))
      ensures finished <==> !W.SweepFastWaits(old(Objects()), old(largeObjects), 0, held)
      ensures finished ==> Valid() && lookup.Values <= old(lookup.Values)
      ensures finished ==> S.SweepFast(old(Objects()), old(largeObjects), 0) == S.Sweep(Objects(), largeObjects)
    {
      hide Objects, Addresses, HeapOf, Valid, O.Shaped, O.Balanced, O.Destroy, O.Waits, V.SwapPop, S.Listed, S.SweepFast, W.SweepFastWaits;
      hide W.OnTheFastSweep;
      ValidIsShaped();
      LargeAreListed();
      ghost var all := S.SweepFast(Objects(), largeObjects, 0);
      ghost var never := W.SweepFastWaits(Objects(), largeObjects, 0, held);
      W.FastSweepStarts(Objects(), largeObjects, held);
      var i := 0;
      while i < |largeObjects|
        invariant Valid() && i <= |largeObjects| && lookup.Values <= old(lookup.Values)
        invariant W.OnTheFastSweep(all, never, Objects(), largeObjects, i, held)
        decreases |largeObjects| - i
      {
        W.FastSweepContinues(all, never, Objects(), largeObjects, i, held);
        ValidIsShaped();
        LargeAreListed();
        V.SwapPopIsShorter(largeObjects, i);
        ViewFlag(largeObjects[i]);
        if largeObjects[i].garbage {
          finished := RemoveLarge(i);
          if !finished {
            return;
          }
        } else {
          i := i + 1;
        }
      }
      W.FastSweepEnds(all, never, Objects(), largeObjects, held);
      finished := true;
    }

    /** One turn of the loop of `CollectLargeObjectsSlow`, which swaps after destroying; the outcome is the same. */
    method InspectLarge(i: nat, id: nat) returns (turn: Turn)
      requires Valid() && i < |largeObjects|
      modifies this`clock, this`lookup, this`largeObjects
      modifies handles`referencedBy, handles`garbage, handles`fields, handles`destroyed, handles`markBits
      ensures S.Listed(old(Objects()), old(largeObjects))
      ensures turn.Stuck? <==> W.InspectWaits(old(Objects()), old(largeObjects[i]), held, locks, old(clock))
      ensures !turn.Stuck? ==> Valid() && S.Listed(Objects(), largeObjects) && lookup.Values <= old(lookup.Values)
      ensures !turn.Stuck? ==>
                var r := C.Inspect(old(Objects()), old(largeObjects[i]), locks, old(clock));
                turn.Destroyed? == r.dead && Objects() == r.heap && clock == r.clock
      ensures !turn.Stuck? ==> largeObjects == if turn.Destroyed? then V.SwapPop(old(largeObjects), i) else old(largeObjects)
    {
      hide Objects, Addresses, HeapOf, A.Agrees, A.Undead, O.Shaped, O.Balanced, O.Destroy, O.Waits, C.Judge, V.SwapPop, TypesFit;
      LargeAreListed();
      C.JudgeAccounts(Objects(), largeObjects[i], locks, clock);
      NothingMarked(id);
      turn := Survived;
      var dead := IsDead(largeObjects[i], id);
      assert Valid();
      if dead {
        var finished := RemoveLarge(i);
        turn := if finished then Destroyed else Stuck;
      } else {
        LargeAreListed();
      }
    }

    lemma NothingMarked(id: nat)
      requires Unmarked()
      ensures Marked(id) == {}
    {
    }

    /** `CollectLargeObjectsSlow`, which may wait forever like the passes over pages. */
    method CollectLargeObjectsSlow() returns (progress: Progress)
      requires Valid()
      modifies this`gcCount, this`clock, this`lookup, this`largeObjects
      modifies handles`referencedBy, handles`garbage, handles`fields, handles`destroyed, handles`markBits
      ensures S.Listed(old(Objects()), old(largeObjects))
      ensures !progress.Corrupted?
      ensures progress.NoIdLeft? <==> old(gcCount) >= MAX_COLLECTORS
      ensures progress.NoLockEver? <==>
                old(gcCount) < MAX_COLLECTORS && W.SweepSlowWaits(old(Objects()), old(largeObjects), 0, held, locks, old(clock))
      ensures !progress.NoLockEver? ==> Valid() && gcCount == old(gcCount) + if progress.Done? then 1 else 0
      ensures !progress.NoLockEver? ==> lookup.Values <= old(lookup.Values)
      ensures progress.Done? ==>
                C.Pass(Objects(), largeObjects, clock) == S.SweepSlow(old(Objects()), old(largeObjects), 0, locks, old(clock))
      ensures progress.NoIdLeft? ==>
                Objects() == old(Objects()) && Addresses() == old(Addresses()) && clock == old(clock) && largeObjects == old(largeObjects)
    {
      hide Objects, Addresses, HeapOf, A.Agrees, A.Undead, O.Shaped, O.Balanced, C.Inspect, V.SwapPop, TypesFit, S.Listed, W.SweepSlowWaits;
      LargeAreListed();
      if gcCount >= MAX_COLLECTORS {
        return NoIdLeft;
      }
      var id := gcCount;
      gcCount := gcCount + 1;
      var finished := SweepLarge(id);
      return if finished then Done else NoLockEver;
    }

    method SweepLarge(id: nat) returns (finished: bool)
      requires Valid()
      modifies this`clock, this`lookup, this`largeObjects
      modifies handles`referencedBy, handles`garbage, handles`fields, handles`destroyed, handles`markBits
      ensures S.Listed(old(Objects()), old(largeObjects))
      ensures finished <==> !W.SweepSlowWaits(old(Objects()), old(largeObjects), 0, held, locks, old(clock))
      ensures finished ==> Valid() && lookup.Values <= old(lookup.Values)
      ensures finished ==>
                C.Pass(Objects(), largeObjects, clock) == S.SweepSlow(old(Objects()), old(largeObjects), 0, locks, old(clock))
    {
      hide Objects, Addresses, HeapOf, Valid, O.Shaped, O.Balanced, C.Inspect, V.SwapPop, S.Listed, S.SweepSlow, W.InspectWaits, W.SweepSlowWaits;
      hide W.OnTheSweep;
      ValidIsShaped();
      LargeAreListed();
      ghost var all := S.SweepSlow(Objects(), largeObjects, 0, locks, clock);
      ghost var never := W.SweepSlowWaits(Objects(), largeObjects, 0, held, locks, clock);
      W.SweepStarts(Objects(), largeObjects, held, locks, clock);
      var i := 0;
      while i < |largeObjects|
        invariant Valid() && i <= |largeObjects| && lookup.Values <= old(lookup.Values)
        invariant W.OnTheSweep(all, never, Objects(), largeObjects, i, held, locks, clock)
        decreases |largeObjects| - i
      {
        W.SweepContinues(all, never, Objects(), largeObjects, i, held, locks, clock);
        V.SwapPopIsShorter(largeObjects, i);
        var turn := InspectLarge(i, id);
        if turn.Stuck? {
          return false;
        }
        if turn.Survived? {
          i := i + 1;
        }
      }
      W.SweepEnds(all, never, Objects(), largeObjects, held, locks, clock);
      return true;
    }

    // -------------------------------------------------------------- compacting

    method InsertIntoLookup(address: nat, handle: Handle)
      modifies this`lookup
      ensures Addresses() == old(Addresses()).(lookup := A.Insert(old(lookup), address, handle))
      ensures Objects() == old(Objects())
    {
      hide HeapOf, Views, Places;
      if address !in lookup {
        lookup := lookup[address := handle];
      }
    }

    /** The lookup forgets the old address and learns the new one. */
    method MoveInLookup(handle: Handle, newLocation: nat)
      modifies this`lookup
      ensures Addresses() == old(Addresses()).(lookup := A.Insert(old(lookup) - {handle.start}, newLocation, handle))
      ensures Objects() == old(Objects())
    {
      EraseFromLookup(handle.start);
      InsertIntoLookup(newLocation, handle);
    }

    /** The elements of an initialized object move. */
    method MoveBytes(page: Page, handle: Handle, offset: nat, newOffset: nat)
      requires handle.objectType.size > 0 && IsWhole(handle.size, handle.objectType.size)
      requires newOffset + handle.objectType.size <= offset && offset + handle.size <= page.memory.Length
      modifies page.memory
      ensures Addresses() == old(Addresses()) && Objects() == old(Objects())
      ensures forall k :: 0 <= k < page.memory.Length && !(newOffset <= k < offset + handle.size) ==> page.memory[k] == old(page.memory[k])
      ensures handle.Initialized() ==> page.memory[newOffset..newOffset + handle.size] == old(page.memory[offset..offset + handle.size])
    {
      hide HeapOf, Views, Places;
      if handle.Initialized() {
        var count := handle.size / handle.objectType.size;
        assert handle.objectType.size * count == handle.size;
        page.MoveElements(offset, newOffset, handle.objectType.size, count);
      }
    }

    method SetAllocation(handle: Handle, start: nat, size: nat)
      requires handle in handles
      modifies handle`start, handle`size
      ensures Addresses() == old(Addresses()).(places := old(Addresses()).places[handle := A.Place(start, size, handle.page)])
      ensures Objects() == old(Objects())
      ensures handle.size == size
    {
      hide HeapOf, Views, Places;
      handle.start, handle.size := start, size;
    }

    method SetBlock(page: Page, i: nat, b: L.Block)
      requires page in pages && i < |page.allocations|
      modifies page`allocations
      ensures Addresses() == old(Addresses()).(pages := old(Addresses()).pages[page := A.PageView(page.base, old(page.allocations)[i := b])])
      ensures Objects() == old(Objects()) && page.allocations == old(page.allocations)[i := b]
    {
      hide HeapOf, Views, Places;
      page.allocations := page.allocations[i := b];
    }

    /** Handle and recorded block learn of the new place. */
    method MovePlace(page: Page, handle: Handle, i: nat, b: L.Block)
      requires handle in handles && page in pages && handle.page == Some(page) && i < |page.allocations|
      modifies handle`start, handle`size, page`allocations
      ensures Addresses() == A.MovePlace(old(Addresses()), page, i, handle, b)
      ensures Objects() == old(Objects()) && handle.size == b.size && page.allocations == old(page.allocations)[i := b]
    {
      hide Objects, Addresses, HeapOf;
      View(page);
      SetAllocation(handle, page.base + b.offset, b.size);
      SetBlock(page, i, b);
    }

    /** The fields of an object whose bytes stay behind become what lies at its new place, if they matter. */
    method LeaveFields(handle: Handle) returns (lost: bool)
      requires handle in handles
      modifies handle`fields
      ensures lost <==> O.Fragile(old(Objects()), Failed(), handle)
      ensures Objects() == if lost then O.WithFields(old(Objects()), handle, handle.fields) else old(Objects())
      ensures Addresses() == old(Addresses())
    {
      hide HeapOf, Views, Places, O.Fragile, Handle.Fragile, O.WithFields;
      handle.FragileInHeap(handles, Failed());
      lost := handle.Fragile();
      if lost {
        handle.LoseFields(handles);
      }
    }

    /**
     `RelocateObject`: the lookup first, then the elements of an initialized object, then handle and
     block. The bytes of other objects stay behind, and thereby fields may be lost.
     */
    method RelocateObject(page: Page, handle: Handle, i: nat, newLocation: nat) returns (lost: bool)
      requires handle in handles && page in pages && handle.page == Some(page) && i < |page.allocations|
      requires page.base + page.allocations[i].offset == handle.start && page.allocations[i].size == handle.size
      requires handle.start in lookup && lookup[handle.start] == handle && L.End(page.allocations[i]) <= page.memory.Length == L.PAGE_SIZE
      requires handle.objectType.size > 0 && IsWhole(handle.size, handle.objectType.size)
      requires page.base <= newLocation && newLocation + handle.objectType.size <= handle.start
      modifies this`lookup, handle`start, handle`size, handle`fields, page`allocations, page.memory
      ensures Addresses() == A.Relocate(old(Addresses()), page, i, newLocation - page.base)
      ensures lost <==> O.Fragile(old(Objects()), Failed(), handle)
      ensures Objects() == if lost then O.WithFields(old(Objects()), handle, handle.fields) else old(Objects())
      ensures handle.size == old(handle.size)
      ensures page.allocations == old(page.allocations)[i := L.Block(newLocation - page.base, handle.size)]
      ensures D.ChangedOnlyAt(old(page.allocations), i, newLocation - page.base, old(page.memory[..]), page.memory[..])
      ensures handle.Initialized() ==> D.Carried(old(page.allocations), old(page.memory[..]), page.allocations, page.memory[..], i)
    {
      hide Objects, Addresses, HeapOf, IsWhole, A.Relocate, A.Insert, A.MovePlace, O.Fragile, O.WithFields, Failed;
      ghost var x := Addresses();
      View(page);
      A.RelocateInSteps(x, page, i, newLocation - page.base);
      var b := page.allocations[i].(offset := newLocation - page.base);
      MoveInLookup(handle, newLocation);
      MoveBytes(page, handle, handle.start - page.base, newLocation - page.base);
      MovePlace(page, handle, i, b);
      lost := LeaveFields(handle);
    }

    /** The attempt to move the object of block `i` down. */
    method TryRelocate(page: Page, handle: Handle, i: nat, lastAllocationEnd: nat, ghost previousEnd: nat, ghost item: D.Item)
      returns (moved: bool, lost: bool)
      requires handle in handles && page in pages && handle.page == Some(page) && i < |page.allocations|
      requires page.base + page.allocations[i].offset == handle.start && page.allocations[i].size == handle.size
      requires handle.start in lookup && lookup[handle.start] == handle && L.End(page.allocations[i]) <= page.memory.Length == L.PAGE_SIZE
      requires IsWhole(handle.size, handle.objectType.size) && lastAllocationEnd == page.base + previousEnd
      requires item == ItemOf(page.allocations[i], handle) && D.Typed(page.base, item) && previousEnd <= item.block.offset
      modifies this`lookup, this`clock, handle`start, handle`size, handle`fields, page`allocations, page.memory
      ensures && moved == (D.WantsMove(page.base, previousEnd, item) && locks(old(clock)))
              && clock == (if D.WantsMove(page.base, previousEnd, item) then old(clock) + 1 else old(clock))
              && page.allocations == old(page.allocations)[i := D.Settled(page.base, previousEnd, item, locks(old(clock)))]
      ensures page in old(Addresses()).pages && old(Addresses()).pages[page] == A.PageView(page.base, old(page.allocations))
      ensures Addresses() == if moved then A.Relocate(old(Addresses()), page, i, page.allocations[i].offset) else old(Addresses())
      ensures lost <==> moved && O.Fragile(old(Objects()), Failed(), handle)
      ensures Objects() == if lost then O.WithFields(old(Objects()), handle, handle.fields) else old(Objects())
      ensures handle.size == old(handle.size)
      ensures moved ==> page.allocations[i].offset < old(page.allocations[i].offset)
      ensures moved ==> D.ChangedOnlyAt(old(page.allocations), i, page.allocations[i].offset, old(page.memory[..]), page.memory[..])
      ensures moved && handle.Initialized() ==> D.Carried(old(page.allocations), old(page.memory[..]), page.allocations, page.memory[..], i)
      ensures !moved ==> page.memory[..] == old(page.memory[..])
    {
      hide Objects, Addresses, HeapOf, IsWhole, A.Relocate, D.ChangedOnlyAt, D.Carried, O.Fragile, O.WithFields, Failed;
      View(page);
      moved, lost := false, false;
      if !handle.immovable {
        D.TargetBelow(page.base, previousEnd, item);
        var padding := L.AlignmentCorrection(lastAllocationEnd, handle.objectType.alignment);
        var potentialNewLocation := lastAllocationEnd + padding;
        var gap: nat := handle.start - potentialNewLocation;
        if gap >= handle.objectType.size {
          moved := TryAcquire();
          if moved {
            lost := RelocateObject(page, handle, i, potentialNewLocation);
          }
        }
      }
    }

    /** The object of block `i`, as compaction finds it. */
    lemma ObjectOfBlock(page: Page, i: nat)
      requires Arranged() && page in pages && i < |page.allocations|
      ensures L.Ordered(page.allocations) && L.End(page.allocations[i]) <= page.memory.Length == L.PAGE_SIZE
      ensures |On(page)| == |page.allocations| && page.base + page.allocations[i].offset in lookup
      ensures var handle := lookup[page.base + page.allocations[i].offset];
              && handle in handles && handle.page == Some(page) && handle == On(page)[i]
              && page.base + page.allocations[i].offset == handle.start && page.allocations[i].size == handle.size
              && IsWhole(handle.size, handle.objectType.size) && D.Typed(page.base, ItemOf(page.allocations[i], handle))
      ensures L.PreviousEnd(page.allocations, i) <= page.allocations[i].offset
    {
      hide Objects, Addresses, HeapOf, On, A.Agrees, A.Undead, A.Found, A.Findable, A.EntriesPlaced, O.Shaped, O.Balanced, IsWhole;
      View(page);
      ViewLarge();
      A.AgreesOnPage(Addresses(), page, i);
      HandleOn(page, i);
    }

    /** One turn of the loop of `DefragmentOnPage`, for the block at index `i`; whether fields are lost. */
    method DefragmentTurn(page: Page, i: nat, lastAllocationEnd: nat) returns (end: nat, lost: bool)
      requires Arranged() && page in pages && i < |page.allocations|
      requires lastAllocationEnd == page.base + L.PreviousEnd(page.allocations, i)
      modifies this`lookup, this`clock, On(page)`start, On(page)`size, On(page)`fields, page`allocations, page.memory
      ensures Arranged() && On(page) == old(On(page)) && i < |On(page)|
      ensures var item, previousEnd := ItemOf(old(page.allocations[i]), On(page)[i]), old(L.PreviousEnd(page.allocations, i));
              && D.Typed(page.base, item) && previousEnd <= item.block.offset
              && clock == (if D.WantsMove(page.base, previousEnd, item) then old(clock) + 1 else old(clock))
              && page.allocations == old(page.allocations)[i := D.Settled(page.base, previousEnd, item, locks(old(clock)))]
      ensures |page.allocations| == |old(page.allocations)|
      ensures lost <==> page.allocations[i] != old(page.allocations[i]) && O.Fragile(old(Objects()), Failed(), On(page)[i])
      ensures Objects() == if lost then O.WithFields(old(Objects()), On(page)[i], On(page)[i].fields) else old(Objects())
      ensures A.SameElsewhere(old(Addresses()), Addresses(), page)
      ensures end == page.base + L.End(page.allocations[i])
      ensures Kept(On(page), old(page.allocations), old(page.memory[..]), page.allocations, page.memory[..])
    {
      hide Objects, Addresses, HeapOf, A.Agrees, A.Undead, A.Found, A.Relocate, O.Fragile, O.WithFields, Failed, Kept, TypesFit, A.SameElsewhere;
      hide IsWhole, L.Ordered, D.WantsMove, D.Settled, D.Carried, D.ChangedOnlyAt;
      ObjectOfBlock(page, i);
      View(page);
      ghost var x, item := Addresses(), ItemOf(page.allocations[i], On(page)[i]);
      ghost var on, blocks, bytes := On(page), page.allocations, page.memory[..];
      D.SettledIsTyped(page.base, L.PreviousEnd(page.allocations, i), item, locks(clock));
      var address := page.base + page.allocations[i].offset;
      var handle := HandleFor(address);
      assert on[i] == handle;
      var moved;
      moved, lost := TryRelocate(page, handle, i, lastAllocationEnd, L.PreviousEnd(page.allocations, i), item);
      View(page);
      FieldsDoNotPlace(old(Objects()), handle, handle.fields);
      if moved {
        var offset := page.allocations[i].offset;
        A.RelocateDuringCompaction(x, page, i, offset, Objects().destroyed);
        A.RelocateElsewhere(x, page, i, offset);
        A.RelocatedLookup(x, page, i, offset);
        assert D.Typed(page.base, ItemOf(page.allocations[i], handle));
        RelocatedTypesFit(handles, x.lookup, address, page.base + offset);
        assert page.allocations[i].size == blocks[i].size;
        assert page.allocations == blocks[i := L.Block(offset, blocks[i].size)];
        KeptBySlide(on, blocks, i, offset, bytes, page.memory[..]);
      } else {
        A.SameAsBefore(x, page);
        KeptInPlace(On(page), page.allocations, page.memory[..]);
      }
      end := page.base + L.End(page.allocations[i]);
    }

    lemma FieldsDoNotPlace(h: O.Heap<Handle>, handle: Handle, fields: seq<Option<Handle>>)
      ensures O.WithFields(h, handle, fields).destroyed == h.destroyed
    {
    }

    lemma PageIsLaid(page: Page)
      requires Arranged() && page in pages
      ensures |On(page)| == |page.allocations| && D.Laid(page.base, ItemsOf(page.allocations, On(page)), 0)
      ensures L.Ordered(page.allocations) && page.memory.Length == L.PAGE_SIZE
    {
      hide A.Agrees, A.Undead, O.Shaped, O.Balanced, IsWhole;
      if page.allocations == [] {
      } else {
        ObjectOfBlock(page, 0);
        var items := ItemsOf(page.allocations, On(page));
        forall i | 0 <= i < |items| ensures D.Typed(page.base, items[i]) {
          ObjectOfBlock(page, i);
        }
        assert D.Blocks(items) == page.allocations;
        D.OrderedIsLaid(page.base, items, 0);
      }
    }

    /**
     `DefragmentOnPage`. It is `intact` if it leaves all fields alone; otherwise it has moved objects
     that were not initialized, but of which the fields matter, and just those have lost them.
     */
    method DefragmentOnPage(page: Page) returns (intact: bool)
      requires Valid() && page in pages
      modifies this`lookup, this`clock, On(page)`start, On(page)`size, On(page)`fields, page`allocations, page.memory
      ensures Arranged()
      ensures |old(On(page))| == |old(page.allocations)| && D.Laid(page.base, ItemsOf(old(page.allocations), old(On(page))), 0)
      ensures On(page) == old(On(page)) && |On(page)| == |page.allocations|
      ensures D.Compact(page.base, ItemsOf(old(page.allocations), On(page)), 0, locks, old(clock)) ==
                D.Compacted(ItemsOf(page.allocations, On(page)), clock)
      ensures O.Disturbed(old(Objects()), Objects(), Losers(old(Objects()), Failed(), On(page), old(page.allocations), page.allocations, |On(page)|))
      ensures intact <==> Losers(old(Objects()), Failed(), On(page), old(page.allocations), page.allocations, |On(page)|) == {}
      ensures intact ==> Valid() && Objects() == old(Objects())
      ensures A.SameElsewhere(old(Addresses()), Addresses(), page)
      ensures Kept(On(page), old(page.allocations), old(page.memory[..]), page.allocations, page.memory[..])
    {
      hide Objects, Addresses, HeapOf, Valid, Arranged, On, Kept, L.Ordered, D.Laid, D.Compact, D.Underway, A.SameElsewhere, V.Distinct, ItemsOf;
      hide Losers, O.Disturbed, O.Fragile, O.WithFields, Failed;
      ValidIsShaped();
      ValidIsArranged();
      PageIsLaid(page);
      OnIsDistinct(page);
      ghost var on, h, blocks0 := On(page), Objects(), page.allocations;
      KeptInPlace(on, page.allocations, page.memory[..]);
      ghost var all := D.Compact(page.base, ItemsOf(page.allocations, on), 0, locks, clock);
      D.CompactionStarts(page.base, ItemsOf(page.allocations, on), locks, clock);
      ghost var x := Addresses();
      A.SameAsBefore(x, page);
      O.NoneDisturbed(h);
      NoLosers(h, Failed(), on, blocks0, page.allocations);
      var lastAllocationEnd := page.base;
      var i := 0;
      intact := true;
      while i < |page.allocations|
        invariant Arranged() && On(page) == on
        invariant i <= |page.allocations| == |on| && page.allocations[i..] == blocks0[i..]
        invariant O.Disturbed(h, Objects(), Losers(h, Failed(), on, blocks0, page.allocations, i))
        invariant intact <==> Losers(h, Failed(), on, blocks0, page.allocations, i) == {}
        invariant A.SameElsewhere(old(Addresses()), Addresses(), page)
        invariant lastAllocationEnd == page.base + L.PreviousEnd(page.allocations, i)
        invariant D.Underway(page.base, all, ItemsOf(page.allocations, on), i, locks, clock)
        invariant Kept(on, old(page.allocations), old(page.memory[..]), page.allocations, page.memory[..])
      {
        ghost var blocks, bytes, time, before, h' := page.allocations, page.memory[..], clock, Addresses(), Objects();
        var lost;
        lastAllocationEnd, lost := DefragmentTurn(page, i, lastAllocationEnd);
        A.SameElsewhereSteps(x, before, Addresses(), page);
        TurnContinues(page.base, all, blocks, on, i, locks, time);
        KeptOn(on, old(page.allocations), old(page.memory[..]), blocks, bytes, page.allocations, page.memory[..]);
        OneMoreLoser(h, h', Failed(), on, blocks0, blocks, page.allocations[i], i, lost, on[i].fields);
        intact := intact && !lost;
        i := i + 1;
      }
      D.CompactionEnds(page.base, all, ItemsOf(page.allocations, on), locks, clock);
      if intact {
        StillValid(h);
      }
    }

    /** `DefragmentOnPage`, as far as the objects and their bytes are concerned. */
    method CompactPage(page: Page) returns (intact: bool)
      requires Valid() && page in pages
      modifies this`lookup, this`clock, On(page)`start, On(page)`size, On(page)`fields, page`allocations, page.memory
      ensures intact ==> Valid() && Objects() == old(Objects()) && On(page) == old(On(page))
      ensures intact ==> A.SameElsewhere(old(Addresses()), Addresses(), page)
      ensures intact ==> Unharmed(old(Images()), Images(), Objects().destroyed)
      ensures |old(On(page))| == |old(page.allocations)|
      ensures intact ==>
                && |On(page)| == |page.allocations|
                && ItemsOf(page.allocations, On(page)) == PackedWith(page.base, old(ItemsOf(page.allocations, On(page))), locks, old(clock))
      ensures LargeSpans() == old(LargeSpans())
      ensures !intact ==> !C.Sturdy(old(Objects()), Failed())
    {
      hide Objects, Addresses, HeapOf, Valid, On, Images, Unharmed, C.Sturdy, A.SameElsewhere, Failed, Losers, SpansOf, ItemsOf, PackedWith;
      NoneIsDestroyed(page);
      LargeAreElsewhere(page);
      if C.Sturdy(Objects(), Failed()) {
        LosersAreFragile(Objects(), Failed(), On(page));
      }
      ghost var spans := LargeSpans();
      intact := CompactBytes(page);
      forall k | 0 <= k < |largeObjects| ensures LargeSpans()[k] == spans[k] {
        assert largeObjects[k] in largeObjects;
      }
      assert LargeSpans() == spans;
    }

    /** The same, and just when it is intact. */
    method CompactBytes(page: Page) returns (intact: bool)
      requires Valid() && page in pages
      modifies this`lookup, this`clock, On(page)`start, On(page)`size, On(page)`fields, page`allocations, page.memory
      ensures |old(On(page))| == |old(page.allocations)| && D.Laid(page.base, ItemsOf(old(page.allocations), old(On(page))), 0)
      ensures intact <==>
                Losers(old(Objects()), Failed(), old(On(page)), old(page.allocations), page.allocations, |old(On(page))|) == {}
      ensures intact ==> Valid() && Objects() == old(Objects()) && On(page) == old(On(page))
      ensures intact ==> A.SameElsewhere(old(Addresses()), Addresses(), page)
      ensures intact ==> Unharmed(old(Images()), Images(), Objects().destroyed)
      ensures intact ==>
                && |On(page)| == |page.allocations|
                && ItemsOf(page.allocations, On(page)) == PackedWith(page.base, old(ItemsOf(page.allocations, On(page))), locks, old(clock))
    {
      hide Objects, Addresses, HeapOf, Valid, On, L.Ordered, D.Laid, D.Compact, Kept, A.SameElsewhere, BytesIn, BytesOf;
      hide ImagesOf, ItemsOf, Losers, O.Disturbed, C.Sturdy, Arranged, Failed;
      ghost var on, images, known := On(page), Images(), lookup.Values;
      View(page);
      BytesAreInBlocks(page, on);
      WhereObjectsLie();
      MemoriesDiffer();
      LookedUpAreHandles();
      intact := DefragmentOnPage(page);
      if intact {
        BytesAreInBlocks(page, on);
        NoneIsNew(old(Addresses()), page);
        assert lookup.Values <= old(lookup.Values);
        forall j | 0 <= j < |on| && on[j].Initialized() ensures BytesOf(on[j]) == old(BytesOf(on[j])) {
          KeptBytes(page.base, on, old(page.allocations), old(page.memory[..]), page.allocations, page.memory[..], j);
        }
        forall h | h in known && h.page.Some? && h.page.value != page ensures BytesOf(h) == old(BytesOf(h)) {
          assert h !in on && h.page.value.memory != page.memory;
        }
        assert forall h :: h in images ==> h in known && h.page.Some? && h.Initialized() && BytesOf(h) == images[h];
        ImagesStay(images, known);
      }
    }

    lemma MemoriesDiffer()
      requires Valid()
      ensures forall p, q :: p in pages && q in pages && p != q ==> p.memory != q.memory
    {
      hide Objects, Addresses, A.Agrees, A.Undead, O.Shaped, O.Balanced;
    }

    lemma NoneIsNew(x: A.Index<Handle, Page>, page: Page)
      requires A.SameElsewhere(x, Addresses(), page)
      ensures lookup.Values <= x.lookup.Values
    {
      hide HeapOf, Views, Places, A.Found;
      ViewLarge();
    }

    // -------------------------------------------------------------- allocating

    /** The handle enters the container and the lookup. */
    method Enter(handle: Handle, ghost fieldCount: nat)
      requires handle !in handles && handle.start !in lookup && handle.Starting(fieldCount)
      modifies this`handles, this`lookup
      ensures handles == old(handles) + {handle} && lookup == old(lookup)[handle.start := handle]
      ensures Objects() == O.Register(old(Objects()), handle, fieldCount)
      ensures Addresses() == old(Addresses()).(lookup := old(lookup)[handle.start := handle],
                places := old(Addresses()).places[handle := A.Place(handle.start, handle.size, handle.page)])
    {
      hide HeapOf, Views, Places, O.Register;
      HeapOfMore(handles, handle, fieldCount);
      lookup := lookup[handle.start := handle];
      handles := handles + {handle};
    }

    /** `RegisterObject`; its assertion that no dead handle remained in the lookup is the precondition. */
    method RegisterObject(page: Option<Page>, allocation: Span, objectType: ObjectType, fieldCount: nat) returns (handle: Handle)
      requires allocation.start !in lookup
      requires page.Some? ==> page.value.base <= allocation.start && allocation.start + allocation.size <= page.value.base + page.value.memory.Length
      modifies this`handles, this`lookup, if page.Some? then {page.value.memory} else {}
      ensures fresh(handle) && handle !in old(handles) && handles == old(handles) + {handle}
      ensures handle.objectType == objectType && handle.Starting(fieldCount) && handle.markBits == {} && handle.start == allocation.start && handle.size == allocation.size
      ensures handle.immovable == !objectType.movable && handle.large == (allocation.size > L.PAGE_SIZE) && handle.page == page
      ensures Objects() == O.Register(old(Objects()), handle, fieldCount)
      ensures Addresses() == old(Addresses()).(lookup := old(lookup)[allocation.start := handle],
                places := old(Addresses()).places[handle := A.Place(allocation.start, allocation.size, page)])
      ensures page.Some? ==>
                forall k :: 0 <= k < page.value.memory.Length ==>
                  page.value.memory[k] == if allocation.start <= page.value.base + k < allocation.start + allocation.size then 0 else old(page.value.memory[k])
    {
      hide Objects, Addresses, HeapOf, O.Register;
      if page.Some? {
        page.value.Clear(allocation.start - page.value.base, allocation.size);
      }
      handle := new Handle(allocation, objectType, fieldCount, page);
      assert Objects() == old(Objects()) && Addresses() == old(Addresses());
      Enter(handle, fieldCount);
    }

    /** `TryAllocate` with the gap branch repaired. */
    method Reserve(page: Page, size: nat, alignment: nat) returns (allocation: Span)
      requires page in pages && L.Ordered(page.allocations) && alignment > 0 && size + alignment < L.SIZE_T_MODULUS
      modifies page`allocations
      ensures var x := old(Addresses());
              match L.FirstFit(page.base, old(page.allocations), size, alignment, 0)
              case None => allocation == EMPTY_SPAN && Addresses() == x
              case Some(slot) =>
                && allocation == Span(page.base + slot.offset, size)
                && Addresses() == x.(pages := x.pages[page := A.PageView(page.base, L.Record(old(page.allocations), slot, size))])
      ensures Objects() == old(Objects())
    {
      hide L.Record, L.FirstFit, L.RecordAsWritten, L.Scan, L.Noted;
      L.ScanIsFirstFit(page.base, page.allocations, size, alignment, 0);
      ghost var found := L.FirstFit(page.base, page.allocations, size, alignment, 0);
      if found.Some? {
        L.NotedIsRecorded(page.allocations, found.value, size);
      }
      allocation := page.TryAllocate(size, alignment, false);
    }

    /**
     An attempt to place `size` bytes on a page: a block is reserved and an object registered
     there, unless the span is empty, as it is for a request of size 0.
     */
    method PlaceOn(page: Page, objectType: ObjectType, size: nat, fieldCount: nat) returns (handle: Option<Handle>)
      requires page in pages && page.memory.Length == L.PAGE_SIZE && L.Ordered(page.allocations)
      requires objectType.alignment > 0 && size + objectType.alignment < L.SIZE_T_MODULUS
      requires var r := L.FirstFit(page.base, page.allocations, size, objectType.alignment, 0);
               r.Some? && size > 0 ==> page.base + r.value.offset !in lookup
      modifies this`handles, this`lookup, page`allocations, page.memory
      ensures size == 0 ==>
                && handle == None && Objects() == old(Objects()) && page.memory[..] == old(page.memory[..])
                && match L.FirstFit(page.base, old(page.allocations), 0, objectType.alignment, 0)
                   case None => Addresses() == old(Addresses())
                   case Some(slot) => Addresses() == A.RecordOnly(old(Addresses()), page, slot, 0)
      ensures size > 0 ==>
              match L.FirstFit(page.base, old(page.allocations), size, objectType.alignment, 0)
              case None => handle == None && Objects() == old(Objects()) && Addresses() == old(Addresses()) && page.memory[..] == old(page.memory[..])
              case Some(slot) =>
                && handle.Some? && fresh(handle.value) && handle.value !in old(handles) && handles == old(handles) + {handle.value}
                && handle.value.objectType == objectType && handle.value.size == size && handle.value.start == page.base + slot.offset
                && Objects() == O.Register(old(Objects()), handle.value, fieldCount)
                && Addresses() == A.Register(old(Addresses()), page, slot, size, handle.value)
                && Cleared(old(page.memory[..]), slot.offset, size, page.memory[..])
      ensures handle.Some? ==> handle.value.Starting(fieldCount) && handle.value.markBits == {} && handle.value.page == Some(page)
      ensures if handle.Some? then lookup == old(lookup)[handle.value.start := handle.value] else lookup == old(lookup) && handles == old(handles)
    {
      hide Objects, Addresses, HeapOf, A.Register, O.Register, L.FirstFit, L.Ordered, L.Record, Handle.Starting;
      View(page);
      ghost var x := Addresses();
      ghost var found := L.FirstFit(page.base, page.allocations, size, objectType.alignment, 0);
      var allocation := Reserve(page, size, objectType.alignment);
      if allocation.size == 0 {
        return None;
      }
      View(page);
      var h := RegisterObject(Some(page), allocation, objectType, fieldCount);
      A.RegisterInSteps(x, page, found.value, size, h);
      View(page);
      return Some(h);
    }

    /** An attempt to place an array of at least one element on a page. */
    method PlaceArray(page: Page, objectType: ObjectType, size: nat, fieldCount: nat) returns (handle: Option<Handle>)
      requires Valid() && page in pages && Allocatable(objectType, size) && 0 < size <= L.PAGE_SIZE
      modifies this`handles, this`lookup, page`allocations, page.memory
      ensures Valid() && L.Ordered(old(page.allocations))
      ensures match L.FirstFit(page.base, old(page.allocations), size, objectType.alignment, 0)
              case None => handle == None && Objects() == old(Objects()) && Addresses() == old(Addresses()) && page.memory[..] == old(page.memory[..])
              case Some(slot) =>
                && handle.Some? && fresh(handle.value) && handle.value !in old(handles) && handles == old(handles) + {handle.value}
                && handle.value.objectType == objectType && handle.value.size == size && handle.value.start == page.base + slot.offset
                && Objects() == O.Register(old(Objects()), handle.value, fieldCount)
                && Addresses() == A.Register(old(Addresses()), page, slot, size, handle.value)
                && Cleared(old(page.memory[..]), slot.offset, size, page.memory[..])
      ensures handle.Some? ==> handle.value.Starting(fieldCount) && handle.value.markBits == {} && handle.value.page == Some(page)
      ensures if handle.Some? then lookup == old(lookup)[handle.value.start := handle.value] else lookup == old(lookup) && handles == old(handles)
    {
      hide Handle.Starting, Cleared;
      hide Objects, Addresses, HeapOf, A.Agrees, A.Undead, A.Register, O.Shaped, O.Balanced, O.Register, TypesFit, IsWhole, AllWhole, NoneMarked;
      hide L.FirstFit, L.Ordered, L.Record, L.Free;
      View(page);
      PageIsLaid(page);
      A.RoomIsUnregistered(Addresses(), page, size, objectType.alignment);
      ViewLarge();
      ghost var x, h := Addresses(), Objects();
      handle := PlaceOn(page, objectType, size, fieldCount);
      if handle.Some? {
        var n := handle.value;
        O.RegisterAccounts(h, n, fieldCount);
        O.RegisterKeepsBalance(h, n, fieldCount);
        A.RegisterWhereRoom(x, page, size, objectType.alignment, n, h.destroyed);
        MoreTypesFit(old(handles), x.lookup, n, n.start);
        MoreAreWhole(old(handles), n);
        assert A.Agrees(Addresses()) && A.Undead(Addresses(), Objects().destroyed);
        assert TypesGood();
        assert PagesDistinct();
      }
    }

    /** An attempt to place an array of `size` bytes on a page; an empty one leaves a block without an object there. */
    method TryAllocateOn(page: Page, objectType: ObjectType, size: nat, fieldCount: nat) returns (handle: Option<Handle>)
      requires Valid() && page in pages && Allocatable(objectType, size) && size <= L.PAGE_SIZE
      modifies this`handles, this`lookup, page`allocations, page.memory
      ensures L.Ordered(old(page.allocations)) && (size > 0 ==> Valid())
      ensures size == 0 ==> !A.Agrees(Addresses())
      ensures size == 0 ==>
                && handle == None && Objects() == old(Objects()) && page.memory[..] == old(page.memory[..])
                && match L.FirstFit(page.base, old(page.allocations), 0, objectType.alignment, 0)
                   case None => Addresses() == old(Addresses())
                   case Some(slot) => Addresses() == A.RecordOnly(old(Addresses()), page, slot, 0)
      ensures size > 0 ==>
              match L.FirstFit(page.base, old(page.allocations), size, objectType.alignment, 0)
              case None => handle == None && Objects() == old(Objects()) && Addresses() == old(Addresses()) && page.memory[..] == old(page.memory[..])
              case Some(slot) =>
                && handle.Some? && fresh(handle.value) && handle.value !in old(handles) && handles == old(handles) + {handle.value}
                && handle.value.objectType == objectType && handle.value.size == size && handle.value.start == page.base + slot.offset
                && Objects() == O.Register(old(Objects()), handle.value, fieldCount)
                && Addresses() == A.Register(old(Addresses()), page, slot, size, handle.value)
                && Cleared(old(page.memory[..]), slot.offset, size, page.memory[..])
      ensures handle.Some? ==> handle.value.Starting(fieldCount) && handle.value.markBits == {} && handle.value.page == Some(page)
      ensures if handle.Some? then lookup == old(lookup)[handle.value.start := handle.value] else lookup == old(lookup) && handles == old(handles)
    {
      hide Handle.Starting, Cleared, Valid, Arranged, Objects, Addresses, HeapOf, A.Agrees, A.Register, A.RecordOnly, O.Register, IsWhole;
      hide L.FirstFit, L.Ordered;
      if size > 0 {
        handle := PlaceArray(page, objectType, size, fieldCount);
      } else {
        ValidIsArranged();
        PageIsLaid(page);
        EmptyRequest(page, objectType.alignment);
        handle := PlaceOn(page, objectType, 0, fieldCount);
      }
    }

    lemma EmptyRequest(page: Page, alignment: nat)
      requires Valid() && page in pages && alignment > 0 && L.PAGE_ALIGNMENT % alignment == 0
      ensures L.Ordered(page.allocations) && L.FirstFit(page.base, page.allocations, 0, alignment, 0).Some?
      ensures page in Addresses().pages && Addresses().pages[page] == A.PageView(page.base, page.allocations)
      ensures !A.Agrees(A.RecordOnly(Addresses(), page, L.FirstFit(page.base, page.allocations, 0, alignment, 0).value, 0))
    {
      hide A.BlocksRegistered, A.EntriesPlaced, A.LargeRegistered, A.PagesGood, A.Undead, O.Shaped, O.Balanced, TypesFit, HeapOf, Addresses;
      hide L.FirstFit, L.Ordered, L.Record;
      View(page);
      A.EmptyRequestDisagrees(Addresses(), page, alignment);
    }

    /** Memory that no page and none of those objects uses, as allocators hand it out. */
    ghost predicate Unused(objects: seq<Handle>, start: nat, size: nat)
      reads this`pages, objects`start, objects`size
    {
      && (forall p :: p in pages ==> A.Apart(start, size, p.base, L.PAGE_SIZE))
      && (forall h :: h in objects ==> A.Apart(h.start, h.size, start, size))
    }

    lemma UnusedIsFresh(start: nat, size: nat)
      requires Unused(largeObjects, start, size)
      ensures A.FreshMemory(Addresses(), start, size)
    {
      hide HeapOf, Views, Places;
    }

    method AppendPage(page: Page)
      requires page.allocations == []
      modifies this`pages
      ensures pages == old(pages) + [page] && Objects() == old(Objects())
      ensures Addresses() == A.AddPage(old(Addresses()), page, page.base)
    {
      hide HeapOf, Views, Places;
      pages := pages + [page];
    }

    /** `NewPage`: the allocator's memory becomes a page at the end of the list, unless it is misaligned. */
    method NewPage(base: nat) returns (page: Option<Page>)
      requires Valid() && Unused(largeObjects, base, L.PAGE_SIZE)
      modifies this`pages
      ensures Valid() && Objects() == old(Objects())
      ensures page.Some? <==> base % L.PAGE_ALIGNMENT == 0
      ensures page.None? ==> pages == old(pages)
      ensures page.Some? ==>
                && fresh(page.value) && fresh(page.value.memory) && page.value.base == base && page.value.allocations == []
                && pages == old(pages) + [page.value] && Addresses() == A.AddPage(old(Addresses()), page.value, base)
    {
      hide Objects, Addresses, A.Agrees, A.FreshMemory, O.Shaped, O.Balanced, TypesFit, HeapOf;
      ghost var x := Addresses();
      UnusedIsFresh(base, L.PAGE_SIZE);
      ViewPages();
      if base % L.PAGE_ALIGNMENT != 0 {
        return None;
      }
      var p := new Page(base);
      assert Addresses() == x && Objects() == old(Objects());
      AppendPage(p);
      A.AddPageAgrees(x, p, base);
      return Some(p);
    }

    lemma ViewPages()
      ensures Addresses().pages.Keys == set p | p in pages
      ensures forall p :: p in pages ==> p in Addresses().pages && Addresses().pages[p] == A.PageView(p.base, p.allocations)
      ensures Addresses().lookup == lookup
    {
      hide HeapOf, Views, Places;
    }

    /**
     `TryAllocateOnNewPage`: an aligned page always has room, so that the end of the function, which
     must not be reached, is reached exactly for requests of size 0.
     */
    method TryAllocateOnNewPage(objectType: ObjectType, size: nat, fieldCount: nat, base: nat) returns (handle: Option<Handle>)
      requires Valid() && Allocatable(objectType, size) && size <= L.PAGE_SIZE && Unused(largeObjects, base, L.PAGE_SIZE)
      modifies this`pages, this`handles, this`lookup
      ensures handle.Some? <==> base % L.PAGE_ALIGNMENT == 0 && size > 0
      ensures if handle.Some? || base % L.PAGE_ALIGNMENT != 0 then Valid() else !A.Agrees(Addresses())
      ensures base % L.PAGE_ALIGNMENT != 0 ==> pages == old(pages)
      ensures handle.None? ==> Objects() == old(Objects()) && lookup == old(lookup)
      ensures handle.Some? ==> lookup.Values <= old(lookup.Values) + {handle.value} && handles == old(handles) + {handle.value}
      ensures handle.Some? ==> Created(handle.value, objectType, size, fieldCount, old(handles)) && handle.value.start == base
      ensures handle.Some? ==> handle.value.page.Some? && pages == old(pages) + [handle.value.page.value]
      ensures handle.Some? ==> Objects() == O.Register(old(Objects()), handle.value, fieldCount)
    {
      hide Objects, Addresses, HeapOf, Valid, O.Register, L.FirstFit, L.Ordered, A.Register, A.AddPage, A.Agrees;
      var page := NewPage(base);
      if page.None? {
        return None;
      }
      L.EmptyPageFits(base, size, objectType.alignment);
      handle := TryAllocateOn(page.value, objectType, size, fieldCount);
    }

    /** A handle that an allocation returned. */
    ghost predicate Created(handle: Handle, objectType: ObjectType, size: nat, fieldCount: nat, before: set<Handle>)
      reads this`handles, this`lookup, handle
    {
      && handle !in before && handle in handles && handle.Starting(fieldCount)
      && handle.objectType == objectType && handle.size == size
      && handle.start in lookup && lookup[handle.start] == handle
    }

    method PlaceLarge(allocation: Span, objectType: ObjectType, fieldCount: nat) returns (handle: Handle)
      requires allocation.start !in lookup
      modifies this`handles, this`lookup, this`largeObjects
      ensures fresh(handle) && Created(handle, objectType, allocation.size, fieldCount, old(handles)) && handle.start == allocation.start
      ensures handles == old(handles) + {handle} && lookup == old(lookup)[handle.start := handle]
      ensures Objects() == O.Register(old(Objects()), handle, fieldCount)
      ensures Addresses() == A.RegisterLarge(old(Addresses()), handle, allocation.start, allocation.size)
      ensures largeObjects == old(largeObjects) + [handle]
    {
      hide Objects, Addresses, HeapOf, O.Register;
      ViewLarge();
      handle := RegisterObject(None, allocation, objectType, fieldCount);
      ViewLarge();
      SetLargeObjects(largeObjects + [handle]);
    }

    /** A large object enters the list in memory that the allocator provided. */
    method AddLarge(allocation: Span, objectType: ObjectType, fieldCount: nat) returns (handle: Handle)
      requires Valid() && Allocatable(objectType, allocation.size) && allocation.size > L.PAGE_SIZE
      requires allocation.start % objectType.alignment == 0 && Unused(largeObjects, allocation.start, allocation.size)
      modifies this`handles, this`lookup, this`largeObjects
      ensures Valid() && handles == old(handles) + {handle}
      ensures lookup.Values <= old(lookup.Values) + {handle}
      ensures Created(handle, objectType, allocation.size, fieldCount, old(handles)) && handle.start == allocation.start
      ensures Objects() == O.Register(old(Objects()), handle, fieldCount) && largeObjects == old(largeObjects) + [handle]
    {
      hide Objects, Addresses, HeapOf, A.Agrees, A.Undead, A.RegisterLarge, A.FreshMemory, O.Shaped, O.Balanced, O.Register, TypesFit, IsWhole;
      ghost var x, h := Addresses(), Objects();
      UnusedIsFresh(allocation.start, allocation.size);
      A.FreshIsNotLookedUp(x, allocation.start, allocation.size);
      ViewLarge();
      handle := PlaceLarge(allocation, objectType, fieldCount);
      O.RegisterAccounts(h, handle, fieldCount);
      O.RegisterKeepsBalance(h, handle, fieldCount);
      A.RegisterLargeAgrees(x, handle, allocation.start, allocation.size);
      A.RegisterLargeKeepsUndead(x, handle, allocation.start, allocation.size, h.destroyed);
      MoreTypesFit(old(handles), x.lookup, handle, handle.start);
    }

    /** The part of `Allocate` for large objects; `allocation` is what the allocator returns after the fast pass. */
    method AllocateLarge(objectType: ObjectType, size: nat, fieldCount: nat, allocation: Span) returns (finished: bool, handle: Option<Handle>)
      requires Valid() && Allocatable(objectType, size) && size > L.PAGE_SIZE && S.Listed(Objects(), largeObjects)
      requires allocation.size > 0 ==>
                 && allocation.size == size && allocation.start % objectType.alignment == 0
                 && Unused(S.SweepFast(Objects(), largeObjects, 0).survivors, allocation.start, size)
      modifies this`handles, this`lookup, this`largeObjects, handles`referencedBy, handles`garbage, handles`fields, handles`destroyed
      ensures finished <==> !W.SweepFastWaits(old(Objects()), old(largeObjects), 0, held)
      ensures handle.Some? <==> finished && allocation.size > 0
      ensures handle.Some? ==> Created(handle.value, objectType, size, fieldCount, old(handles)) && handle.value.start == allocation.start
      ensures finished ==> Valid() && lookup.Values <= old(lookup.Values) + if handle.Some? then {handle.value} else {}
      ensures handles == old(handles) + if handle.Some? then {handle.value} else {}
      ensures finished ==>
                var swept := S.SweepFast(old(Objects()), old(largeObjects), 0);
                if handle.Some? then
                  Objects() == O.Register(swept.heap, handle.value, fieldCount) && largeObjects == swept.survivors + [handle.value]
                else Objects() == swept.heap && largeObjects == swept.survivors
    {
      hide Objects, Addresses, HeapOf, Valid, O.Register, TypesFit, IsWhole, S.Listed, S.SweepFast, W.SweepFastWaits;
      ValidIsShaped();
      S.SweepFastShrinks(Objects(), largeObjects, 0);
      finished := CollectLargeObjectsFast();
      handle := None;
      if finished && allocation.size > 0 {
        var n := AddLarge(allocation, objectType, fieldCount);
        handle := Some(n);
      }
    }

    lemma ValidIsShaped()
      requires Valid()
      ensures O.Shaped(Objects()) && O.Balanced(Objects()) && A.Agrees(Addresses())
    {
    }

    // -------------------------------------------------------------- the whole allocation

    /** Where the large objects lie. */
    ghost function LargeSpans(): (r: seq<Span>)
      reads this`largeObjects, largeObjects`start, largeObjects`size
    {
      SpansOf(largeObjects)
    }

    lemma UnusedBySpans(start: nat, size: nat)
      ensures Unused(largeObjects, start, size) <==>
                && (forall p :: p in pages ==> A.Apart(start, size, p.base, L.PAGE_SIZE))
                && (forall k :: 0 <= k < |LargeSpans()| ==> A.Apart(LargeSpans()[k].start, LargeSpans()[k].size, start, size))
    {
      hide SpansOf;
      forall h | h in largeObjects ensures exists k :: 0 <= k < |LargeSpans()| && LargeSpans()[k] == Span(h.start, h.size) {
        var k :| 0 <= k < |largeObjects| && largeObjects[k] == h;
        assert LargeSpans()[k] == Span(h.start, h.size);
      }
    }

    lemma LargeAreElsewhere(page: Page)
      requires Valid() && page in pages
      ensures forall h :: h in largeObjects ==> h !in On(page)
    {
      hide A.Agrees, A.Undead, O.Shaped, O.Balanced, TypesFit, HeapOf;
      View(page);
      ViewLarge();
      A.LargeAreElsewhere(Addresses(), page);
    }

    lemma OnAreHandles(page: Page)
      requires Valid()
      ensures forall i :: 0 <= i < |On(page)| ==> On(page)[i] in handles
    {
      hide A.Agrees, A.Undead, O.Shaped, O.Balanced, A.Found;
    }

    /** One attempt on a page, as far as the bytes of one known object after the other are concerned. */
    method AttemptByteForByte(page: Page, objectType: ObjectType, size: nat, fieldCount: nat) returns (handle: Option<Handle>)
      requires Valid() && page in pages && Allocatable(objectType, size) && 0 < size <= L.PAGE_SIZE
      modifies this`handles, this`lookup, page`allocations, page.memory
      ensures Valid()
      ensures handle.Some? ==> Created(handle.value, objectType, size, fieldCount, old(handles))
      ensures Objects() == if handle.Some? then O.Register(old(Objects()), handle.value, fieldCount) else old(Objects())
      ensures handles == old(handles) + if handle.Some? then {handle.value} else {}
      ensures lookup.Values <= old(lookup.Values) + if handle.Some? then {handle.value} else {}
      ensures L.Ordered(old(page.allocations)) && objectType.alignment > 0
      ensures var slot := L.FirstFit(page.base, old(page.allocations), size, objectType.alignment, 0);
              (handle.Some? <==> slot.Some?) && (handle.Some? ==> PageOf(handle) == Some(page) && Offset(handle) == Some(slot.value.offset))
      ensures handle.None? ==> Addresses() == old(Addresses())
      ensures forall h :: h in old(lookup.Values) && h.page.Some? ==> BytesOf(h) == old(BytesOf(h))
    {
      hide Objects, Addresses, HeapOf, Valid, Arranged, On, O.Register, A.Register, L.FirstFit, L.Ordered, L.Free, Cleared, BytesIn, BytesOf, IsWhole, Cut, V.Distinct, L.Fits;
      ghost var on, blocks, known := On(page), page.allocations, lookup.Values;
      BytesAreInBlocks(page, on);
      ValidIsArranged();
      PageIsLaid(page);
      WhereObjectsLie();
      MemoriesDiffer();
      L.RoomIsFree(page.base, blocks, size, objectType.alignment);
      handle := TryAllocateOn(page, objectType, size, fieldCount);
      forall j | 0 <= j < |on| ensures BytesOf(on[j]) == old(BytesOf(on[j])) {
        if handle.Some? {
          ghost var slot := L.FirstFit(page.base, blocks, size, objectType.alignment, 0).value;
          ClearedElsewhere(page.base, blocks, old(page.memory[..]), slot.offset, size, page.memory[..], j);
        }
        BytesInBlock(on[j], page, blocks[j]);
      }
      forall h | h in known && h.page.Some? && h.page.value != page ensures BytesOf(h) == old(BytesOf(h)) {
        assert h.page.value.memory != page.memory;
      }
    }

    /** One attempt on a page, as far as the bytes of all other objects are concerned. */
    method AttemptBesideOthers(page: Page, objectType: ObjectType, size: nat, fieldCount: nat) returns (handle: Option<Handle>)
      requires Valid() && page in pages && Allocatable(objectType, size) && 0 < size <= L.PAGE_SIZE
      modifies this`handles, this`lookup, page`allocations, page.memory
      ensures Valid()
      ensures handle.Some? ==> Created(handle.value, objectType, size, fieldCount, old(handles))
      ensures Objects() == if handle.Some? then O.Register(old(Objects()), handle.value, fieldCount) else old(Objects())
      ensures handles == old(handles) + if handle.Some? then {handle.value} else {}
      ensures L.Ordered(old(page.allocations)) && objectType.alignment > 0
      ensures var slot := L.FirstFit(page.base, old(page.allocations), size, objectType.alignment, 0);
              (handle.Some? <==> slot.Some?) && (handle.Some? ==> PageOf(handle) == Some(page) && Offset(handle) == Some(slot.value.offset))
      ensures handle.None? ==> Addresses() == old(Addresses())
      ensures Unharmed(old(Images()), Images(), Objects().destroyed)
    {
      hide Objects, Addresses, HeapOf, Valid, O.Register, L.FirstFit, L.Ordered, BytesOf, ImagesOf;
      ghost var images, known := Images(), lookup.Values;
      LookedUpAreHandles();
      handle := AttemptByteForByte(page, objectType, size, fieldCount);
      assert forall h :: h in images ==> h in known && h.page.Some? && h.Initialized() && BytesOf(h) == images[h];
      ImagesStay(images, known);
    }

    /** One attempt on a page, as far as the objects are concerned. */
    method AttemptOnPage(page: Page, objectType: ObjectType, size: nat, fieldCount: nat) returns (handle: Option<Handle>)
      requires Valid() && page in pages && Allocatable(objectType, size) && 0 < size <= L.PAGE_SIZE
      modifies this`handles, this`lookup, page`allocations, page.memory
      ensures Valid() && Gentle(old(Objects()), old(Images()), Objects(), Images())
      ensures handle.Some? ==> Created(handle.value, objectType, size, fieldCount, old(handles))
      ensures handles == old(handles) + if handle.Some? then {handle.value} else {}
      ensures objectType.alignment > 0 && (handle.Some? <==> Roomy(page.base, old(page.allocations), size, objectType.alignment))
      ensures Failed() == old(Failed())
      ensures handle.Some? ==>
                && PageOf(handle) == Some(page) && Offset(handle).Some?
                && LowestFit(page.base, old(page.allocations), size, objectType.alignment, Offset(handle).value)
      ensures handle.None? ==> Objects() == old(Objects()) && Addresses() == old(Addresses())
      ensures LargeSpans() == old(LargeSpans())
    {
      hide Objects, Addresses, HeapOf, Valid, IsWhole, O.Register, C.Harmless, C.FewerTargets, Images, Unharmed, Roomy, LowestFit, LargeSpans;
      ValidIsShaped();
      ghost var h, blocks := Objects(), page.allocations;
      handle := AttemptBesideOthers(page, objectType, size, fieldCount);
      FirstFitIsLowestFit(page.base, blocks, size, objectType.alignment);
      if handle.Some? {
        C.RegisterIsHarmless(h, handle.value, fieldCount);
        C.NewcomerHasNoTargets(h, handle.value, fieldCount);
        assert Failed() == old(Failed());
      } else {
        C.StayingIsHarmless(h);
        C.SameTargets(h);
      }
    }

    /** One collection of a page, as far as the objects are concerned. */
    method CleanPage(page: Page) returns (progress: Progress)
      requires Valid() && page in pages
      modifies this`gcCount, this`clock, this`lookup, page`allocations
      modifies handles`referencedBy, handles`garbage, handles`fields, handles`destroyed, handles`markBits
      ensures !progress.Corrupted? && (progress.NoIdLeft? <==> old(gcCount) >= MAX_COLLECTORS)
      ensures progress.NoLockEver? ==> !C.Orderly(old(Objects()), held)
      ensures !progress.NoLockEver? ==> Valid() && Gentle(old(Objects()), old(Images()), Objects(), Images())
      ensures !progress.NoLockEver? ==> gcCount == old(gcCount) + if progress.Done? then 1 else 0
      ensures O.Shaped(old(Objects())) && O.Balanced(old(Objects())) && forall k :: 0 <= k < |old(On(page))| ==> old(On(page))[k] in handles
      ensures progress.NoLockEver? ==> W.PassWaits(old(Objects()), old(On(page)), held, locks, old(clock))
      ensures progress.NoIdLeft? ==> Objects() == old(Objects()) && Addresses() == old(Addresses())
      ensures progress.Done? ==>
                var r := C.CollectList(old(Objects()), old(On(page)), locks, old(clock));
                && !W.PassWaits(old(Objects()), old(On(page)), held, locks, old(clock)) && A.SameElsewhere(old(Addresses()), Addresses(), page)
                && Objects() == r.heap && On(page) == r.survivors && clock == r.clock
    {
      hide Objects, Addresses, HeapOf, Valid, On, C.CollectList, Gentle, W.PassWaits, C.Orderly, A.SameElsewhere, ImagesOf, Arranged;
      ValidIsShaped();
      ValidIsArranged();
      LookedUpAreHandles();
      OnAreHandles(page);
      OnIsDistinct(page);
      ghost var h, known := Objects(), lookup.Values;
      View(page);
      ghost var on, time := On(page), clock;
      W.OrderlyPassReturns(h, On(page), held, locks, clock);
      progress := CollectOnPage(page);
      View(page);
      if progress.Done? {
        NoneIsNew(old(Addresses()), page);
      }
      if !progress.NoLockEver? {
        assert lookup.Values <= known;
        AllAreThere(known);
        PassIsGentle(h, on, locks, time, known, lookup.Values, progress.Done?);
      }
    }

    /** The same, and the layout that it leaves. */
    method ReclaimPage(page: Page) returns (progress: Progress)
      requires Valid() && page in pages
      modifies this`gcCount, this`clock, this`lookup, page`allocations
      modifies handles`referencedBy, handles`garbage, handles`fields, handles`destroyed, handles`markBits
      ensures !progress.Corrupted? && (progress.NoIdLeft? <==> old(gcCount) >= MAX_COLLECTORS)
      ensures progress.NoLockEver? ==> !C.Orderly(old(Objects()), held)
      ensures !progress.NoLockEver? ==> Valid() && Gentle(old(Objects()), old(Images()), Objects(), Images())
      ensures !progress.NoLockEver? ==> gcCount == old(gcCount) + if progress.Done? then 1 else 0
      ensures O.Shaped(old(Objects())) && O.Balanced(old(Objects())) && forall k :: 0 <= k < |old(On(page))| ==> old(On(page))[k] in handles
      ensures progress.NoLockEver? ==> W.PassWaits(old(Objects()), old(On(page)), held, locks, old(clock))
      ensures progress.NoIdLeft? ==> Objects() == old(Objects()) && Addresses() == old(Addresses())
      ensures progress.Done? ==>
                var r := C.CollectList(old(Objects()), old(On(page)), locks, old(clock));
                && !W.PassWaits(old(Objects()), old(On(page)), held, locks, old(clock)) && A.SameElsewhere(old(Addresses()), Addresses(), page)
                && Objects() == r.heap && On(page) == r.survivors && clock == r.clock
                && |On(page)| == |page.allocations|
                && ItemsOf(page.allocations, On(page)) == LeftItems(r.heap.destroyed, old(On(page)), old(page.allocations))
    {
      hide Objects, Addresses, HeapOf, Valid, On, C.CollectList, C.Orderly, Images, Gentle, W.PassWaits, A.SameElsewhere, Places, Arranged, V.Distinct;
      hide ItemsOf, LeftItems, Matches, Left;
      ValidIsShaped();
      ValidIsArranged();
      OnAreHandles(page);
      OnIsDistinct(page);
      NoneIsDestroyed(page);
      BlocksMatch(page);
      Requests.SurvivorsAreLeft(Objects(), On(page), locks, clock);
      ghost var h, on, blocks, places := Objects(), On(page), page.allocations, Places(handles);
      progress := CleanPage(page);
      if progress.Done? {
        BlocksMatch(page);
        BlocksLeft(places, page.base, Objects().destroyed, on, blocks, On(page), page.allocations);
      }
    }

    lemma BlocksMatch(page: Page)
      requires Valid() && page in pages
      ensures |On(page)| == |page.allocations| && Matches(Places(handles), page.base, On(page), page.allocations)
    {
      hide Valid, On, L.Ordered, Objects, BytesOf, BytesIn, Places, Addresses, HeapOf;
      BytesAreInBlocks(page, On(page));
      OnAreHandles(page);
    }

    lemma OnIsDistinct(page: Page)
      requires Arranged() && page in pages
      ensures V.Distinct(On(page))
    {
      hide A.Agrees, A.Undead, O.Shaped, O.Balanced, TypesFit, HeapOf, A.Found;
      View(page);
      A.FoundIsDistinct(Addresses(), page);
    }

    /** What `Allocate` tries on one page: as it is, after a collection, and after a compaction. */
    method AllocateOnPage(page: Page, objectType: ObjectType, size: nat, fieldCount: nat) returns (progress: Progress, handle: Option<Handle>)
      requires Valid() && page in pages && Allocatable(objectType, size) && 0 < size <= L.PAGE_SIZE
      modifies this`gcCount, this`clock, this`handles, this`lookup, page`allocations, page.memory, handles`start, handles`size
      modifies handles`referencedBy, handles`garbage, handles`fields, handles`destroyed, handles`markBits
      ensures !progress.Done? ==> handle.None?
      ensures progress.NoIdLeft? ==> gcCount >= MAX_COLLECTORS
      ensures progress.NoLockEver? ==> !C.Orderly(old(Objects()), held)
      ensures progress.Corrupted? ==> !C.Sturdy(old(Objects()), old(Failed()))
      ensures progress.Regular() ==> Valid() && Gentle(old(Objects()), old(Images()), Objects(), Images()) && Failed() == old(Failed())
      ensures handle.Some? ==> Created(handle.value, objectType, size, fieldCount, old(handles)) && PageOf(handle) == Some(page)
      ensures handles == old(handles) + if handle.Some? then {handle.value} else {}
      ensures progress.Regular() ==> LargeSpans() == old(LargeSpans())
      ensures objectType.alignment > 0 && (Roomy(page.base, old(page.allocations), size, objectType.alignment) ==> handle.Some?)
      ensures O.Shaped(old(Objects())) && O.Balanced(old(Objects())) && forall k :: 0 <= k < |old(On(page))| ==> old(On(page))[k] in handles
      ensures !progress.Corrupted? ==>
                Tried(page.base, OutlookWith(old(Objects()), old(On(page)), page.base, old(page.allocations), locks, old(clock)), size,
                      objectType.alignment, W.PassWaits(old(Objects()), old(On(page)), held, locks, old(clock)), old(gcCount), gcCount, progress, Offset(handle))
      ensures progress.Done? && handle.None? ==>
                var r := C.CollectList(old(Objects()), old(On(page)), locks, old(clock));
                Objects() == r.heap && On(page) == r.survivors && A.SameElsewhere(old(Addresses()), Addresses(), page)
    {
      hide Objects, Addresses, HeapOf, Valid, IsWhole, C.Orderly, C.Sturdy, C.CollectList, Images, Gentle, Roomy, LowestFit, Failed, LargeSpans, On;
      hide W.PassWaits, A.SameElsewhere, PackedWith, LeftItems, D.Blocks;
      ValidIsShaped();
      OnAreHandles(page);
      SameOn(page);
      ghost var h, images, failed := Objects(), Images(), Failed();
      progress := Done;
      handle := AttemptOnPage(page, objectType, size, fieldCount);
      if handle.None? {
        SameOn(page);
        ghost var attempted, itsImages := Objects(), Images();
        GentleKeepsOrder(h, images, attempted, itsImages, held, failed);
        progress, handle := AllocateOnCleanPage(page, objectType, size, fieldCount);
        if progress.Regular() {
          GentleSteps(h, images, attempted, itsImages, Objects(), Images());
        }
      }
    }

    /** What lies on a page, and where, follows from the addresses. */
    lemma SameOn(page: Page)
      requires page in pages
      ensures On(page) == A.ListOf(Addresses(), page) && page in Addresses().pages && page.allocations == Addresses().pages[page].blocks
    {
      hide A.Found, HeapOf, Views, Places, Addresses;
      View(page);
    }

    /** The later part of it, from the collection on. */
    method AllocateOnCleanPage(page: Page, objectType: ObjectType, size: nat, fieldCount: nat) returns (progress: Progress, handle: Option<Handle>)
      requires Valid() && page in pages && Allocatable(objectType, size) && 0 < size <= L.PAGE_SIZE
      modifies this`gcCount, this`clock, this`handles, this`lookup, page`allocations, page.memory, handles`start, handles`size
      modifies handles`referencedBy, handles`garbage, handles`fields, handles`destroyed, handles`markBits
      ensures !progress.Done? ==> handle.None?
      ensures progress.NoIdLeft? <==> old(gcCount) >= MAX_COLLECTORS
      ensures progress.NoIdLeft? ==> gcCount >= MAX_COLLECTORS
      ensures progress.NoLockEver? ==> !C.Orderly(old(Objects()), held)
      ensures progress.Corrupted? ==> !C.Sturdy(old(Objects()), old(Failed()))
      ensures progress.Regular() ==> Valid() && Gentle(old(Objects()), old(Images()), Objects(), Images()) && Failed() == old(Failed())
      ensures handle.Some? ==> Created(handle.value, objectType, size, fieldCount, old(handles)) && PageOf(handle) == Some(page)
      ensures handles == old(handles) + if handle.Some? then {handle.value} else {}
      ensures progress.Regular() ==> LargeSpans() == old(LargeSpans())
      ensures O.Shaped(old(Objects())) && O.Balanced(old(Objects())) && forall k :: 0 <= k < |old(On(page))| ==> old(On(page))[k] in handles
      ensures progress.NoLockEver? ==> W.PassWaits(old(Objects()), old(On(page)), held, locks, old(clock))
      ensures progress.Done? ==> gcCount == old(gcCount) + 1 && !W.PassWaits(old(Objects()), old(On(page)), held, locks, old(clock))
      ensures objectType.alignment > 0
      ensures progress.Done? ==>
                var outlook := OutlookWith(old(Objects()), old(On(page)), page.base, old(page.allocations), locks, old(clock));
                Placed(page.base, outlook.collected, outlook.compacted, size, objectType.alignment, Offset(handle))
      ensures progress.Done? && handle.None? ==>
                var r := C.CollectList(old(Objects()), old(On(page)), locks, old(clock));
                Objects() == r.heap && On(page) == r.survivors && A.SameElsewhere(old(Addresses()), Addresses(), page)
    {
      hide Objects, Addresses, HeapOf, Valid, IsWhole, C.Orderly, C.Sturdy, Images, Gentle, Failed, On, C.CollectList, A.SameElsewhere, W.PassWaits;
      hide LargeSpans, PackedWith, LeftItems, ItemsOf, Placed, D.Blocks;
      ghost var h, images, failed, x := Objects(), Images(), Failed(), Addresses();
      handle := None;
      progress := ReclaimPage(page);
      if progress.Done? {
        BlocksOfItems(page.allocations, On(page));
        ghost var cleaned, itsImages, x' := Objects(), Images(), Addresses();
        GentleKeepsOrder(h, images, cleaned, itsImages, held, failed);
        progress, handle := AllocateOnDensePage(page, objectType, size, fieldCount);
        if progress.Done? {
          GentleSteps(h, images, cleaned, itsImages, Objects(), Images());
          if handle.None? {
            A.SameElsewhereSteps(x, x', Addresses(), page);
          }
        }
      }
    }

    /** The attempt after a collection, and after a compaction if that one fails. */
    method AllocateOnDensePage(page: Page, objectType: ObjectType, size: nat, fieldCount: nat) returns (progress: Progress, handle: Option<Handle>)
      requires Valid() && page in pages && Allocatable(objectType, size) && 0 < size <= L.PAGE_SIZE
      modifies this`clock, this`handles, this`lookup, page`allocations, page.memory, handles`start, handles`size, handles`fields
      ensures (progress.Done? || progress.Corrupted?) && (progress.Corrupted? ==> handle.None?)
      ensures progress.Corrupted? ==> !C.Sturdy(old(Objects()), old(Failed()))
      ensures progress.Done? ==> Valid() && Gentle(old(Objects()), old(Images()), Objects(), Images()) && Failed() == old(Failed())
      ensures handle.Some? ==> Created(handle.value, objectType, size, fieldCount, old(handles)) && PageOf(handle) == Some(page)
      ensures handles == old(handles) + if handle.Some? then {handle.value} else {}
      ensures progress.Regular() ==> LargeSpans() == old(LargeSpans())
      ensures |old(On(page))| == |old(page.allocations)| && objectType.alignment > 0
      ensures progress.Done? ==>
                var packed := PackedWith(page.base, old(ItemsOf(page.allocations, On(page))), locks, old(clock));
                Placed(page.base, old(page.allocations), D.Blocks(packed), size, objectType.alignment, Offset(handle))
      ensures progress.Done? && handle.None? ==>
                Objects() == old(Objects()) && On(page) == old(On(page)) && A.SameElsewhere(old(Addresses()), Addresses(), page)
    {
      hide Objects, Addresses, HeapOf, Valid, On, IsWhole, C.Sturdy, Images, Gentle, A.SameElsewhere, Roomy, LowestFit, Failed, LargeSpans;
      hide ItemsOf, PackedWith, D.Blocks;
      ghost var h, images, failed, x := Objects(), Images(), Failed(), Addresses();
      BlocksMatch(page);
      SameOn(page);
      progress := Done;
      handle := AttemptOnPage(page, objectType, size, fieldCount);
      if handle.None? {
        SameOn(page);
        ghost var attempted, itsImages := Objects(), Images();
        GentleKeepsOrder(h, images, attempted, itsImages, held, failed);
        progress, handle := AllocateOnPackedPage(page, objectType, size, fieldCount);
        if progress.Done? {
          GentleSteps(h, images, attempted, itsImages, Objects(), Images());
        }
      }
    }

    /** The compaction and the last attempt. */
    method AllocateOnPackedPage(page: Page, objectType: ObjectType, size: nat, fieldCount: nat) returns (progress: Progress, handle: Option<Handle>)
      requires Valid() && page in pages && Allocatable(objectType, size) && 0 < size <= L.PAGE_SIZE
      modifies this`clock, this`handles, this`lookup, page`allocations, page.memory, handles`start, handles`size, handles`fields
      ensures (progress.Done? || progress.Corrupted?) && (progress.Corrupted? ==> handle.None?)
      ensures progress.Corrupted? ==> !C.Sturdy(old(Objects()), old(Failed()))
      ensures progress.Done? ==> Valid() && Gentle(old(Objects()), old(Images()), Objects(), Images()) && Failed() == old(Failed())
      ensures handle.Some? ==> Created(handle.value, objectType, size, fieldCount, old(handles)) && PageOf(handle) == Some(page)
      ensures handles == old(handles) + if handle.Some? then {handle.value} else {}
      ensures progress.Regular() ==> LargeSpans() == old(LargeSpans())
      ensures |old(On(page))| == |old(page.allocations)| && objectType.alignment > 0
      ensures progress.Done? ==>
                var packed := PackedWith(page.base, old(ItemsOf(page.allocations, On(page))), locks, old(clock));
                && (handle.Some? <==> Roomy(page.base, D.Blocks(packed), size, objectType.alignment))
                && (handle.Some? ==> Offset(handle).Some? && LowestFit(page.base, D.Blocks(packed), size, objectType.alignment, Offset(handle).value))
      ensures progress.Done? && handle.None? ==>
                Objects() == old(Objects()) && On(page) == old(On(page)) && A.SameElsewhere(old(Addresses()), Addresses(), page)
    {
      hide Objects, Addresses, HeapOf, Valid, On, IsWhole, C.Sturdy, Images, Gentle, A.SameElsewhere, Roomy, LowestFit, Failed, LargeSpans;
      hide ItemsOf, PackedWith, D.Blocks, Offset;
      ghost var h, images := Objects(), Images();
      OnAreHandles(page);
      var intact := CompactPage(page);
      if !intact {
        return Corrupted, None;
      }
      BlocksOfItems(page.allocations, On(page));
      SameOn(page);
      SameObjectsAreGentle(h, images, Images());
      ghost var compacted, itsImages := Objects(), Images();
      progress := Done;
      handle := AttemptOnPage(page, objectType, size, fieldCount);
      SameOn(page);
      GentleSteps(h, images, compacted, itsImages, Objects(), Images());
    }

    /** The first page of which the lock is free has room. */
    ghost predicate RoomAhead(size: nat, alignment: nat)
      requires alignment > 0
      reads this`pages, this`clock, pages`allocations
    {
      RoomOnFirst(pages, LayoutsOf(pages), locks, clock, size, alignment)
    }

    /** The loop of `Allocate` over the pages whose lock is free. */
    method AllocateOnPages(objectType: ObjectType, size: nat, fieldCount: nat) returns (progress: Progress, handle: Option<Handle>)
      requires Valid() && Allocatable(objectType, size) && 0 < size <= L.PAGE_SIZE
      modifies this`gcCount, this`clock, this`handles, this`lookup, pages`allocations, set p | p in pages :: p.memory
      modifies handles`start, handles`size
      modifies handles`referencedBy, handles`garbage, handles`fields, handles`destroyed, handles`markBits
      ensures !progress.Done? ==> handle.None?
      ensures progress.NoIdLeft? ==> gcCount >= MAX_COLLECTORS
      ensures progress.NoLockEver? ==> !C.Orderly(old(Objects()), held)
      ensures progress.Corrupted? ==> !C.Sturdy(old(Objects()), old(Failed()))
      ensures progress.Regular() ==> Valid() && Gentle(old(Objects()), old(Images()), Objects(), Images()) && Failed() == old(Failed())
      ensures handle.Some? ==> Created(handle.value, objectType, size, fieldCount, old(handles)) && PageOf(handle).Some?
      ensures handles == old(handles) + if handle.Some? then {handle.value} else {}
      ensures progress.Regular() ==> LargeSpans() == old(LargeSpans())
      ensures objectType.alignment > 0 && (old(RoomAhead(size, objectType.alignment)) ==> handle.Some?)
      ensures Sensible(old(Snap()))
      ensures C.Collectable(old(Objects())) && W.Free(locks) && !progress.Corrupted? ==>
                ServedFirst(old(Snap()), size, objectType.alignment, old(gcCount), held, progress, PageOf(handle), Offset(handle))
      ensures C.Collectable(old(Objects())) && W.Free(locks) && progress.Done? && handle.None? ==> gcCount == old(gcCount) + |pages|
    {
      hide Objects, Addresses, HeapOf, Valid, IsWhole, C.Orderly, C.Sturdy, Images, Gentle, Roomy, Failed, LargeSpans, LayoutsOf, OnPages;
      hide Sensible, ServedFirst, Looking, C.Collectable, W.Free, Created, Awaiting, RoomOnFirst;
      ghost var failed, time, s := Failed(), clock, Snap();
      StayingIsGentle(Objects(), Images());
      SnapIsSensible();
      LookingStarts(s, size, objectType.alignment, gcCount, held, locks);
      AwaitingStarts(pages, s.layouts, locks, clock, size, objectType.alignment);
      progress, handle := Done, None;
      var i := 0;
      while i < |pages|
        invariant i <= |pages| && Valid() && Gentle(old(Objects()), old(Images()), Objects(), Images()) && Failed() == failed
        invariant progress.Done? && handle.None? && handles == old(handles)
        invariant LargeSpans() == old(LargeSpans())
        invariant Awaiting(pages, s.layouts, locks, time, size, objectType.alignment, i, clock, LayoutsOf(pages))
        invariant Looking(s, Snap(), size, objectType.alignment, old(gcCount), gcCount, i, held, locks)
      {
        ghost var before, layouts := clock, LayoutsOf(pages);
        progress, handle := AllocateOnNextPage(i, pages[i], objectType, size, fieldCount, s, old(Images()), old(gcCount));
        AwaitingNext(pages, s.layouts, locks, time, size, objectType.alignment, i, before, layouts, clock, LayoutsOf(pages), handle.Some?);
        if !progress.Done? || handle.Some? {
          return;
        }
        i := i + 1;
      }
      AwaitingEnds(pages, s.layouts, locks, time, size, objectType.alignment, clock, LayoutsOf(pages));
      if C.Collectable(s.heap) && W.Free(locks) {
        LookingEnds(s, Snap(), size, objectType.alignment, old(gcCount), gcCount, held, locks);
      }
    }

    /** The objects, and what lies where on the pages. */
    ghost function Snap(): Snapshot
      reads this`handles, this`pages, this`largeObjects, this`lookup, handles`start, handles`size
      reads handles`referencedBy, handles`fields, handles`rootHandleCount, handles`garbage, handles`uninitialized, handles`destroyed
      reads pages`allocations
    {
      Snapshot(Objects(), OnPages(), LayoutsOf(pages), pages)
    }

    lemma SnapIsSensible()
      requires Valid()
      ensures Sensible(Snap())
    {
      hide Valid, Objects, O.Shaped, W.Spread, LayoutsOf;
      PagesAreSpread();
    }

    /** One turn of it; `s`, `images` and `ids` are from the start of the search. */
    method AllocateOnNextPage(i: nat, page: Page, objectType: ObjectType, size: nat, fieldCount: nat, ghost s: Snapshot,
        ghost images: map<Handle, seq<Byte>>, ghost ids: nat)
      returns (progress: Progress, handle: Option<Handle>)
      requires Valid() && i < |pages| && page == pages[i] && Allocatable(objectType, size) && 0 < size <= L.PAGE_SIZE
      requires Gentle(s.heap, images, Objects(), Images())
      requires Sensible(s) && s.pages == pages && Looking(s, Snap(), size, objectType.alignment, ids, gcCount, i, held, locks)
      modifies this`gcCount, this`clock, this`handles, this`lookup, page`allocations, page.memory
      modifies handles`start, handles`size
      modifies handles`referencedBy, handles`garbage, handles`fields, handles`destroyed, handles`markBits
      ensures !progress.Done? ==> handle.None?
      ensures progress.NoIdLeft? ==> gcCount >= MAX_COLLECTORS
      ensures progress.NoLockEver? ==> !C.Orderly(s.heap, held)
      ensures progress.Corrupted? ==> !C.Sturdy(s.heap, old(Failed()))
      ensures progress.Regular() ==> Valid() && Gentle(s.heap, images, Objects(), Images()) && Failed() == old(Failed())
      ensures handle.Some? ==> Created(handle.value, objectType, size, fieldCount, old(handles)) && PageOf(handle).Some?
      ensures handles == old(handles) + if handle.Some? then {handle.value} else {}
      ensures progress.Regular() ==> LargeSpans() == old(LargeSpans())
      ensures !locks(old(clock)) ==>
                clock == old(clock) + 1 && progress.Done? && LayoutsOf(pages) == old(LayoutsOf(pages))
      ensures objectType.alignment > 0
      ensures locks(old(clock)) && Roomy(page.base, old(LayoutsOf(pages))[i], size, objectType.alignment) ==> handle.Some?
      ensures progress.Done? && handle.None? ==> Looking(s, Snap(), size, objectType.alignment, ids, gcCount, i + 1, held, locks)
      ensures C.Collectable(s.heap) && W.Free(locks) && !progress.Corrupted? && !(progress.Done? && handle.None?) ==>
                ServedFirst(s, size, objectType.alignment, ids, held, progress, PageOf(handle), Offset(handle))
    {
      hide Objects, Addresses, HeapOf, Valid, IsWhole, C.Orderly, C.Sturdy, Images, Gentle, Roomy, Failed, LargeSpans, LayoutsOf, Created;
      hide Sensible, ServedFirst, Looking, C.Collectable, W.Free, OnPages, Offset;
      ghost var before, itsImages := Objects(), Images();
      GentleKeepsOrder(s.heap, images, before, itsImages, held, Failed());
      progress, handle := AllocateOnPageIfFree(i, page, objectType, size, fieldCount, s, ids);
      if progress.Regular() {
        GentleSteps(s.heap, images, before, itsImages, Objects(), Images());
      }
    }

    /** One turn on its own. */
    method AllocateOnPageIfFree(i: nat, page: Page, objectType: ObjectType, size: nat, fieldCount: nat, ghost s: Snapshot, ghost ids: nat)
      returns (progress: Progress, handle: Option<Handle>)
      requires Valid() && i < |pages| && page == pages[i] && Allocatable(objectType, size) && 0 < size <= L.PAGE_SIZE
      requires Sensible(s) && s.pages == pages && Looking(s, Snap(), size, objectType.alignment, ids, gcCount, i, held, locks)
      modifies this`gcCount, this`clock, this`handles, this`lookup, page`allocations, page.memory
      modifies handles`start, handles`size
      modifies handles`referencedBy, handles`garbage, handles`fields, handles`destroyed, handles`markBits
      ensures !progress.Done? ==> handle.None?
      ensures progress.NoIdLeft? ==> gcCount >= MAX_COLLECTORS
      ensures progress.NoLockEver? ==> !C.Orderly(old(Objects()), held)
      ensures progress.Corrupted? ==> !C.Sturdy(old(Objects()), old(Failed()))
      ensures progress.Regular() ==> Valid() && Gentle(old(Objects()), old(Images()), Objects(), Images()) && Failed() == old(Failed())
      ensures handle.Some? ==> Created(handle.value, objectType, size, fieldCount, old(handles)) && PageOf(handle).Some?
      ensures handles == old(handles) + if handle.Some? then {handle.value} else {}
      ensures progress.Regular() ==> LargeSpans() == old(LargeSpans())
      ensures !locks(old(clock)) ==>
                clock == old(clock) + 1 && progress.Done? && LayoutsOf(pages) == old(LayoutsOf(pages))
      ensures objectType.alignment > 0
      ensures locks(old(clock)) && Roomy(page.base, old(LayoutsOf(pages))[i], size, objectType.alignment) ==> handle.Some?
      ensures progress.Done? && handle.None? ==> Looking(s, Snap(), size, objectType.alignment, ids, gcCount, i + 1, held, locks)
      ensures C.Collectable(s.heap) && W.Free(locks) && !progress.Corrupted? && !(progress.Done? && handle.None?) ==>
                ServedFirst(s, size, objectType.alignment, ids, held, progress, PageOf(handle), Offset(handle))
    {
      hide Objects, Addresses, HeapOf, Valid, IsWhole, C.Orderly, C.Sturdy, Images, Gentle, Roomy, Failed, LargeSpans, LayoutsOf, Created;
      hide Sensible, ServedFirst, Looking, C.Collectable, W.Free, OnPages, Offset;
      StayingIsGentle(Objects(), Images());
      progress, handle := Done, None;
      var acquired := TryAcquire();
      if acquired {
        progress, handle := AllocateOnPageInTurn(i, page, objectType, size, fieldCount, s, ids);
      } else {
        LookingIfRefused(s, Snap(), size, objectType.alignment, ids, gcCount, i + 1, held, locks, old(clock));
      }
    }

    /** One turn at a page of which the lock was had. */
    method AllocateOnPageInTurn(i: nat, page: Page, objectType: ObjectType, size: nat, fieldCount: nat, ghost s: Snapshot, ghost ids: nat)
      returns (progress: Progress, handle: Option<Handle>)
      requires Valid() && i < |pages| && page == pages[i] && Allocatable(objectType, size) && 0 < size <= L.PAGE_SIZE
      requires Sensible(s) && s.pages == pages && Looking(s, Snap(), size, objectType.alignment, ids, gcCount, i, held, locks)
      modifies this`gcCount, this`clock, this`handles, this`lookup, page`allocations, page.memory
      modifies handles`start, handles`size
      modifies handles`referencedBy, handles`garbage, handles`fields, handles`destroyed, handles`markBits
      ensures !progress.Done? ==> handle.None?
      ensures progress.NoIdLeft? ==> gcCount >= MAX_COLLECTORS
      ensures progress.NoLockEver? ==> !C.Orderly(old(Objects()), held)
      ensures progress.Corrupted? ==> !C.Sturdy(old(Objects()), old(Failed()))
      ensures progress.Regular() ==> Valid() && Gentle(old(Objects()), old(Images()), Objects(), Images()) && Failed() == old(Failed())
      ensures handle.Some? ==> Created(handle.value, objectType, size, fieldCount, old(handles)) && PageOf(handle).Some?
      ensures handles == old(handles) + if handle.Some? then {handle.value} else {}
      ensures progress.Regular() ==> LargeSpans() == old(LargeSpans())
      ensures objectType.alignment > 0
      ensures Roomy(page.base, old(LayoutsOf(pages))[i], size, objectType.alignment) ==> handle.Some?
      ensures progress.Done? && handle.None? ==> Looking(s, Snap(), size, objectType.alignment, ids, gcCount, i + 1, held, locks)
      ensures C.Collectable(s.heap) && W.Free(locks) && !progress.Corrupted? && !(progress.Done? && handle.None?) ==>
                ServedFirst(s, size, objectType.alignment, ids, held, progress, PageOf(handle), Offset(handle))
    {
      hide Objects, Addresses, HeapOf, Valid, IsWhole, C.Orderly, C.Sturdy, C.CollectList, Images, Gentle, Roomy, Failed, LargeSpans, LayoutsOf, Created;
      hide Sensible, ServedFirst, Looking, C.Collectable, W.Free, Tried, OutlookWith, W.PassWaits, On, OnPages;
      ghost var s', time, count := Snap(), clock, gcCount;
      progress, handle := AllocateOnPageAt(i, page, objectType, size, fieldCount);
      if !progress.Corrupted? {
        LookingOn(s, s', Snap(), size, objectType.alignment, ids, count, gcCount, i, held, locks, time, progress, PageOf(handle), Offset(handle));
      }
    }

    /** `AllocateOnPage` among the pages. */
    method AllocateOnPageAt(i: nat, page: Page, objectType: ObjectType, size: nat, fieldCount: nat) returns (progress: Progress, handle: Option<Handle>)
      requires Valid() && i < |pages| && page == pages[i] && Allocatable(objectType, size) && 0 < size <= L.PAGE_SIZE
      modifies this`gcCount, this`clock, this`handles, this`lookup, page`allocations, page.memory, handles`start, handles`size
      modifies handles`referencedBy, handles`garbage, handles`fields, handles`destroyed, handles`markBits
      ensures !progress.Done? ==> handle.None?
      ensures progress.NoIdLeft? ==> gcCount >= MAX_COLLECTORS
      ensures progress.NoLockEver? ==> !C.Orderly(old(Objects()), held)
      ensures progress.Corrupted? ==> !C.Sturdy(old(Objects()), old(Failed()))
      ensures progress.Regular() ==> Valid() && Gentle(old(Objects()), old(Images()), Objects(), Images()) && Failed() == old(Failed())
      ensures handle.Some? ==> Created(handle.value, objectType, size, fieldCount, old(handles)) && PageOf(handle) == Some(page)
      ensures handles == old(handles) + if handle.Some? then {handle.value} else {}
      ensures progress.Regular() ==> LargeSpans() == old(LargeSpans())
      ensures objectType.alignment > 0 && (Roomy(page.base, old(page.allocations), size, objectType.alignment) ==> handle.Some?)
      ensures O.Shaped(old(Objects())) && O.Balanced(old(Objects())) && forall k :: 0 <= k < |old(On(page))| ==> old(On(page))[k] in old(handles)
      ensures old(OnPages()[i]) == old(On(page)) && old(LayoutsOf(pages)[i]) == old(page.allocations)
      ensures !progress.Corrupted? ==>
                Tried(page.base, OutlookWith(old(Objects()), old(On(page)), page.base, old(page.allocations), locks, old(clock)), size,
                      objectType.alignment, W.PassWaits(old(Objects()), old(On(page)), held, locks, old(clock)), old(gcCount), gcCount, progress, Offset(handle))
      ensures progress.Done? && handle.None? ==>
                var r := C.CollectList(old(Objects()), old(On(page)), locks, old(clock));
                && Objects() == r.heap && OnPages() == old(OnPages())[i := r.survivors]
                && LayoutsOf(pages) == old(LayoutsOf(pages))[i := page.allocations]
    {
      hide Objects, Addresses, HeapOf, Valid, IsWhole, C.Orderly, C.Sturdy, C.CollectList, Images, Gentle, Roomy, Failed, LargeSpans, LayoutsOf, Created;
      hide Tried, OutlookWith, W.PassWaits, On, OnPages, A.SameElsewhere;
      ghost var x, before, layouts := Addresses(), OnPages(), LayoutsOf(pages);
      OnPagesAt(i);
      ViewPages();
      PagesDiffer(i);
      OnAreHandles(page);
      progress, handle := AllocateOnPage(page, objectType, size, fieldCount);
      if progress.Done? && handle.None? {
        SameOtherPages(x, before, i);
        OneLayout(layouts, i);
      }
    }

    lemma PagesDiffer(i: nat)
      requires Valid() && i < |pages|
      ensures forall k :: 0 <= k < |pages| && k != i ==> pages[k] != pages[i]
    {
      hide Objects, Addresses, A.Agrees, A.Undead, O.Shaped, O.Balanced;
    }

    /** The slow pass over the large objects, as far as `Allocate` cares. */
    method CleanLargeObjects() returns (progress: Progress)
      requires Valid()
      modifies this`gcCount, this`clock, this`lookup, this`largeObjects
      modifies handles`referencedBy, handles`garbage, handles`fields, handles`destroyed, handles`markBits
      ensures !progress.Corrupted? && (progress.NoIdLeft? <==> old(gcCount) >= MAX_COLLECTORS)
      ensures progress.NoLockEver? ==> !C.Orderly(old(Objects()), held)
      ensures !progress.NoLockEver? ==> Valid() && Gentle(old(Objects()), old(Images()), Objects(), Images())
      ensures !progress.NoLockEver? ==> gcCount == old(gcCount) + if progress.Done? then 1 else 0
      ensures !progress.NoLockEver? ==> forall h :: h in largeObjects ==> h in old(largeObjects)
    {
      hide Objects, Addresses, HeapOf, Valid, C.Harmless, C.Orderly, S.Listed, S.SweepSlow, W.SweepSlowWaits, ImagesOf, Unharmed, C.FewerTargets;
      ghost var known := lookup.Values;
      LookedUpAreHandles();
      ValidIsShaped();
      LargeAreListed();
      C.StayingIsHarmless(Objects());
      C.SameTargets(Objects());
      S.SweepSlowIsHarmless(Objects(), largeObjects, locks, clock);
      S.SweepSlowFewer(Objects(), largeObjects, 0, locks, clock);
      S.SweepSlowShrinks(Objects(), largeObjects, 0, locks, clock);
      W.OrderlySlowReturns(Objects(), largeObjects, held, locks, clock);
      progress := CollectLargeObjectsSlow();
      if !progress.NoLockEver? {
        AllAreThere(known);
        FewerUnharmed(known, lookup.Values, Objects().destroyed);
      }
    }

    /** `Allocate` for what no page took: the large objects are collected, and a page is added. */
    method AllocateBehindPages(objectType: ObjectType, size: nat, fieldCount: nat, newPage: nat) returns (result: Allocation)
      requires Valid() && Allocatable(objectType, size) && 0 < size <= L.PAGE_SIZE && Unused(largeObjects, newPage, L.PAGE_SIZE)
      modifies this`gcCount, this`clock, this`handles, this`lookup, this`largeObjects, this`pages
      modifies handles`referencedBy, handles`garbage, handles`fields, handles`destroyed, handles`markBits
      ensures (result.Stopped? && !result.why.Regular()) || (Valid() && Gentle(old(Objects()), old(Images()), Objects(), Images()))
      ensures match result
              case Allocated(handle) =>
                && Created(handle, objectType, size, fieldCount, old(handles))
                && handle.page.Some? && pages == old(pages) + [handle.page.value] && handle.start == newPage
              case BadAlloc | Derailed => false
              case MisalignedPage => newPage % L.PAGE_ALIGNMENT != 0
              case Stopped(why) =>
                match why
                case Done | Corrupted => false
                case NoIdLeft => gcCount >= MAX_COLLECTORS
                case NoLockEver => !C.Orderly(old(Objects()), held)
      ensures !result.Allocated? ==> pages == old(pages)
      ensures result == Stopped(NoIdLeft) <==> old(gcCount) >= MAX_COLLECTORS
    {
      hide Objects, Addresses, HeapOf, Valid, IsWhole, C.Orderly, Images, Gentle, LargeSpans, A.Apart;
      ghost var h, images := Objects(), Images();
      UnusedBySpans(newPage, L.PAGE_SIZE);
      var progress := CleanLargeObjects();
      if !progress.Done? {
        return Stopped(progress);
      }
      ghost var cleaned, itsImages := Objects(), Images();
      var handle := AllocateOnNewPage(objectType, size, fieldCount, newPage);
      if handle.None? {
        return MisalignedPage;
      }
      GentleSteps(h, images, cleaned, itsImages, Objects(), Images());
      return Allocated(handle.value);
    }

    /** `Allocate` for what fits on a page; `newPage` is the memory that the allocator has for another page. */
    method AllocateSmall(objectType: ObjectType, size: nat, fieldCount: nat, newPage: nat) returns (result: Allocation)
      requires Valid() && Allocatable(objectType, size) && 0 < size <= L.PAGE_SIZE && Unused(largeObjects, newPage, L.PAGE_SIZE)
      modifies this`gcCount, this`clock, this`handles, this`lookup, this`largeObjects, this`pages
      modifies pages`allocations, set p | p in pages :: p.memory, handles`start, handles`size
      modifies handles`referencedBy, handles`garbage, handles`fields, handles`destroyed, handles`markBits
      ensures (result.Stopped? && !result.why.Regular()) || (Valid() && Gentle(old(Objects()), old(Images()), Objects(), Images()))
      ensures match result
              case Allocated(handle) => Created(handle, objectType, size, fieldCount, old(handles))
              case BadAlloc | Derailed => false
              case MisalignedPage => newPage % L.PAGE_ALIGNMENT != 0
              case Stopped(why) =>
                match why
                case Done => false
                case NoIdLeft => gcCount >= MAX_COLLECTORS
                case NoLockEver => !C.Orderly(old(Objects()), held)
                case Corrupted => !C.Sturdy(old(Objects()), old(Failed()))
      ensures objectType.alignment > 0 && (old(RoomAhead(size, objectType.alignment)) ==> result.Allocated?)
      ensures Sensible(old(Snap()))
      ensures C.Collectable(old(Objects())) && W.Free(locks) && result != Stopped(Corrupted) ==>
                SmallServed(old(Snap()), pages, size, objectType.alignment, old(gcCount), held, newPage, result)
    {
      hide Objects, Addresses, HeapOf, Valid, IsWhole, C.Orderly, C.Sturdy, Images, Gentle, RoomAhead, Failed, LargeSpans, A.Apart;
      hide C.Collectable, W.Free, Sensible, SnagAhead, FirstRoom, OnPages, LayoutsOf;
      ghost var h, images := Objects(), Images();
      UnusedBySpans(newPage, L.PAGE_SIZE);
      var progress, handle := AllocateOnPages(objectType, size, fieldCount);
      UnusedBySpans(newPage, L.PAGE_SIZE);
      if !progress.Done? {
        return Stopped(progress);
      }
      if handle.Some? {
        return Allocated(handle.value);
      }
      ghost var tried, itsImages := Objects(), Images();
      GentleKeepsOrder(h, images, tried, itsImages, held, {});
      result := AllocateBehindPages(objectType, size, fieldCount, newPage);
      if !result.Stopped? || result.why.Regular() {
        GentleSteps(h, images, tried, itsImages, Objects(), Images());
      }
    }

    /** `TryAllocateOnNewPage`, as far as the objects and their bytes are concerned. */
    method AllocateOnNewPage(objectType: ObjectType, size: nat, fieldCount: nat, base: nat) returns (handle: Option<Handle>)
      requires Valid() && Allocatable(objectType, size) && 0 < size <= L.PAGE_SIZE && Unused(largeObjects, base, L.PAGE_SIZE)
      modifies this`pages, this`handles, this`lookup
      ensures Valid() && Gentle(old(Objects()), old(Images()), Objects(), Images())
      ensures handle.Some? <==> base % L.PAGE_ALIGNMENT == 0
      ensures handle.None? ==> Objects() == old(Objects()) && Images() == old(Images())
      ensures handle.Some? ==> Created(handle.value, objectType, size, fieldCount, old(handles))
      ensures handle.Some? ==> PageOf(handle).Some? && pages == old(pages) + [PageOf(handle).value] && handle.value.start == base
      ensures handle.None? ==> pages == old(pages)
    {
      hide Objects, Addresses, HeapOf, Valid, Allocatable, C.Harmless, C.FewerTargets, O.Register, ImagesOf, Unharmed;
      ghost var h, known := Objects(), lookup.Values;
      ValidIsShaped();
      LookedUpAreHandles();
      handle := TryAllocateOnNewPage(objectType, size, fieldCount, base);
      if handle.None? {
        StayingIsGentle(h, Images());
      } else {
        AllAreThere(known);
        NewUnharmed(known, lookup.Values, handle.value, Objects().destroyed);
        C.RegisterIsHarmless(h, handle.value, fieldCount);
        C.NewcomerHasNoTargets(h, handle.value, fieldCount);
      }
    }

    /**
     `Allocate` for an empty array. The first page whose lock is free gets a block that has no
     object, or else a new page does and the end of `TryAllocateOnNewPage` is reached.
     */
    method AllocateNothing(objectType: ObjectType, fieldCount: nat, newPage: nat) returns (result: Allocation)
      requires Valid() && Allocatable(objectType, 0) && Unused(largeObjects, newPage, L.PAGE_SIZE)
      modifies this`gcCount, this`clock, this`handles, this`lookup, this`largeObjects, this`pages
      modifies pages`allocations, set p | p in pages :: p.memory
      modifies handles`referencedBy, handles`garbage, handles`fields, handles`destroyed, handles`markBits
      ensures !result.Allocated? && !result.BadAlloc?
      ensures result.Derailed? ==> !A.Agrees(Addresses())
      ensures !result.Derailed? && result != Stopped(NoLockEver) ==> Valid() && Gentle(old(Objects()), old(Images()), Objects(), Images())
      ensures result.MisalignedPage? ==> newPage % L.PAGE_ALIGNMENT != 0
      ensures result.Stopped? ==>
                if result.why.NoIdLeft? then gcCount >= MAX_COLLECTORS else result.why.NoLockEver? && !C.Orderly(old(Objects()), held)
    {
      hide Objects, Addresses, HeapOf, Valid, Allocatable, C.Orderly, A.Agrees, ImagesOf, Gentle;
      ghost var known := lookup.Values;
      ghost var h := Objects();
      var i := 0;
      while i < |pages|
        invariant Valid() && Objects() == h && Images() == old(Images()) && handles == old(handles) && pages == old(pages) && largeObjects == old(largeObjects)
      {
        var acquired := TryAcquire();
        if acquired {
          var none := TryAllocateOn(pages[i], objectType, 0, fieldCount);
          return Derailed;
        }
        i := i + 1;
      }
      StayingIsGentle(h, Images());
      var progress := CleanLargeObjects();
      if !progress.Done? {
        return Stopped(progress);
      }
      var handle := TryAllocateOnNewPage(objectType, 0, fieldCount, newPage);
      if newPage % L.PAGE_ALIGNMENT != 0 {
        return MisalignedPage;
      }
      return Derailed;
    }

    /** `Allocate`, given what the allocator would provide for a large object and for another page. */
    method Allocate(objectType: ObjectType, count: nat, fieldCount: nat, large: Span, newPage: nat) returns (result: Allocation)
      requires Valid() && S.Listed(Objects(), largeObjects) && Requestable(objectType, count)
      requires Bytes(objectType, count) > L.PAGE_SIZE && large.size > 0 ==>
                 && large.size == Bytes(objectType, count) && large.start % objectType.alignment == 0
                 && Unused(S.SweepFast(Objects(), largeObjects, 0).survivors, large.start, large.size)
      requires Bytes(objectType, count) <= L.PAGE_SIZE ==> Unused(largeObjects, newPage, L.PAGE_SIZE)
      modifies this`gcCount, this`clock, this`handles, this`lookup, this`largeObjects, this`pages
      modifies pages`allocations, set p | p in pages :: p.memory, handles`start, handles`size
      modifies handles`referencedBy, handles`garbage, handles`fields, handles`destroyed, handles`markBits
      ensures (result.Stopped? && !result.why.Regular()) || result.Derailed? || (Valid() && Gentle(old(Objects()), old(Images()), Objects(), Images()))
      ensures result.Derailed? ==> count == 0 && !A.Agrees(Addresses())
      ensures count == 0 ==> !result.Allocated?
      ensures result.Allocated? ==> Created(result.handle, objectType, Bytes(objectType, count), fieldCount, old(handles))
      ensures Bytes(objectType, count) > L.PAGE_SIZE ==>
                && (result == Stopped(NoLockEver) <==> W.SweepFastWaits(old(Objects()), old(largeObjects), 0, held))
                && (result == Stopped(NoLockEver) ==> !C.Orderly(old(Objects()), held))
                && (result.Allocated? <==> result != Stopped(NoLockEver) && large.size > 0)
                && (result.BadAlloc? <==> result != Stopped(NoLockEver) && large.size == 0)
      ensures Bytes(objectType, count) <= L.PAGE_SIZE ==>
                match result
                case Allocated(_) => true
                case BadAlloc => false
                case Derailed => count == 0
                case MisalignedPage => newPage % L.PAGE_ALIGNMENT != 0
                case Stopped(why) =>
                  match why
                  case Done => false
                  case NoIdLeft => gcCount >= MAX_COLLECTORS
                  case NoLockEver => !C.Orderly(old(Objects()), held)
                  case Corrupted => !C.Sturdy(old(Objects()), old(Failed()))
      ensures objectType.alignment > 0
      ensures 0 < Bytes(objectType, count) <= L.PAGE_SIZE && old(RoomAhead(Bytes(objectType, count), objectType.alignment)) ==> result.Allocated?
      ensures Sensible(old(Snap()))
      ensures 0 < Bytes(objectType, count) <= L.PAGE_SIZE && C.Collectable(old(Objects())) && W.Free(locks) && result != Stopped(Corrupted) ==>
                SmallServed(old(Snap()), pages, Bytes(objectType, count), objectType.alignment, old(gcCount), held, newPage, result)
    {
      hide Bytes, Objects, Addresses, HeapOf, Valid, Allocatable, C.Orderly, S.Listed, S.SweepFast, Requestable, Unused, W.SweepFastWaits;
      hide Images, Gentle, C.Sturdy, RoomAhead, Failed, C.Collectable, W.Free, Snap, Sensible, SmallServed;
      SnapIsSensible();
      var size := Bytes(objectType, count);
      RequestIsAllocatable(objectType, count);
      if size == 0 {
        result := AllocateNothing(objectType, fieldCount, newPage);
      } else if size <= L.PAGE_SIZE {
        result := AllocateSmall(objectType, size, fieldCount, newPage);
      } else {
        result := AllocateElsewhere(objectType, size, fieldCount, large);
      }
    }

    /** `Allocate` for large objects. */
    method AllocateElsewhere(objectType: ObjectType, size: nat, fieldCount: nat, large: Span) returns (result: Allocation)
      requires Valid() && Allocatable(objectType, size) && size > L.PAGE_SIZE && S.Listed(Objects(), largeObjects)
      requires large.size > 0 ==>
                 && large.size == size && large.start % objectType.alignment == 0
                 && Unused(S.SweepFast(Objects(), largeObjects, 0).survivors, large.start, large.size)
      modifies this`handles, this`lookup, this`largeObjects, handles`referencedBy, handles`garbage, handles`fields, handles`destroyed
      ensures result != Stopped(NoLockEver) ==> Valid() && Gentle(old(Objects()), old(Images()), Objects(), Images())
      ensures result.Allocated? ==> Created(result.handle, objectType, size, fieldCount, old(handles))
      ensures !result.Derailed? && !result.MisalignedPage? && (result.Stopped? ==> result.why.NoLockEver?)
      ensures result == Stopped(NoLockEver) <==> W.SweepFastWaits(old(Objects()), old(largeObjects), 0, held)
      ensures result == Stopped(NoLockEver) ==> !C.Orderly(old(Objects()), held)
      ensures result.Allocated? <==> result != Stopped(NoLockEver) && large.size > 0
      ensures result.BadAlloc? <==> result != Stopped(NoLockEver) && large.size == 0
    {
      hide Objects, Addresses, HeapOf, Valid, Allocatable, Gentle, C.Orderly, O.Register, S.Listed, S.SweepFast, Unused, W.SweepFastWaits, ImagesOf;
      ghost var h, list, known := Objects(), largeObjects, lookup.Values;
      ValidIsShaped();
      LookedUpAreHandles();
      var finished, handle := AllocateLarge(objectType, size, fieldCount, large);
      if !finished {
        W.OrderlyFastReturns(h, list, held);
        return Stopped(NoLockEver);
      }
      AllAreThere(known);
      LargeIsGentle(h, list, handle, fieldCount, known, lookup.Values);
      return if handle.Some? then Allocated(handle.value) else BadAlloc;
    }

    // -------------------------------------------------------------- collecting everything

    /** What lies on the pages, page by page. */
    ghost function OnPages(): (r: seq<seq<Handle>>)
      reads this`handles, this`pages, this`largeObjects, this`lookup, handles`start, handles`size
      reads pages`allocations
      ensures |r| == |pages|
    {
      A.Lists(Addresses(), pages)
    }

    lemma OnPagesAt(i: nat)
      requires i < |pages|
      ensures OnPages()[i] == On(pages[i]) && OnPages() == A.Lists(Addresses(), pages)
    {
      hide Addresses, A.Found;
      View(pages[i]);
    }

    lemma PagesAreSpread()
      requires Valid()
      ensures O.Shaped(Objects()) && W.Spread(Objects(), OnPages())
    {
      hide A.Agrees, A.Undead, O.Balanced, HeapOf, A.ListOf, A.Lists, Addresses;
      ViewPages();
      A.ListsApart(Addresses(), pages);
    }

    lemma SameOtherPages(x: A.Index<Handle, Page>, before: seq<seq<Handle>>, i: nat)
      requires Valid() && i < |pages| && before == A.Lists(x, pages) && A.SameElsewhere(x, Addresses(), pages[i])
      requires forall k :: 0 <= k < |pages| ==> pages[k] in x.pages
      ensures OnPages() == before[i := On(pages[i])]
    {
      hide A.Agrees, A.Undead, O.Balanced, TypesFit, HeapOf, A.ListOf, A.Lists, Addresses, A.SameElsewhere;
      A.ListsElsewhere(x, Addresses(), pages, i);
      OnPagesAt(i);
    }

    /** One page of `Collect`. */
    method CollectNext(i: nat, page: Page, defragment: bool, ghost h: O.Heap<Handle>, ghost lists: seq<seq<Handle>>) returns (progress: Progress)
      requires Valid() && i < |pages| == |lists| && page == pages[i] && O.Shaped(h) && W.Spread(h, lists)
      requires W.Cleaned(h, lists, Objects(), OnPages(), i, held, locks)
      modifies this`gcCount, this`clock, this`lookup, page`allocations, page.memory
      modifies handles`start, handles`size
      modifies handles`referencedBy, handles`garbage, handles`fields, handles`destroyed, handles`markBits
      ensures progress.NoIdLeft? <==> old(gcCount) >= MAX_COLLECTORS
      ensures progress.NoLockEver? ==>
                !C.Orderly(old(Objects()), held) && forall n :: i < n <= |pages| ==> W.WaitsOn(h, lists, n, held, locks, true)
      ensures progress.Corrupted? ==> defragment && !C.Sturdy(old(Objects()), Failed())
      ensures progress.Regular() ==> Valid() && Gentle(old(Objects()), old(Images()), Objects(), Images())
      ensures progress.Regular() ==> gcCount == old(gcCount) + if progress.Done? then 1 else 0
      ensures progress.Regular() ==>
                W.Cleaned(h, lists, Objects(), OnPages(), if progress.Done? then i + 1 else i, held, locks)
      ensures O.Shaped(old(Objects())) && O.Balanced(old(Objects())) && forall k :: 0 <= k < |old(On(page))| ==> old(On(page))[k] in handles
      ensures progress.Done? ==>
                var outlook := OutlookWith(old(Objects()), old(On(page)), page.base, old(page.allocations), locks, old(clock));
                LayoutsOf(pages) == old(LayoutsOf(pages))[i := Final(outlook, defragment)]
    {
      hide Objects, Addresses, HeapOf, Valid, OnPages, C.Orderly, C.Sturdy, Images, Gentle, Failed, W.Cleaned, W.WaitsOn, W.Spread;
      hide On, C.CollectList, LayoutsOf, LeftItems, PackedWith, ItemsOf, D.Blocks;
      ghost var layouts := LayoutsOf(pages);
      progress := CleanNext(i, page, h, lists);
      if progress.Done? && defragment {
        ghost var cleaned, images := Objects(), Images();
        GentleKeepsOrder(old(Objects()), old(Images()), cleaned, images, held, Failed());
        var intact := CompactNext(i, page);
        if !intact {
          return Corrupted;
        }
        GentleSteps(old(Objects()), old(Images()), cleaned, images, Objects(), Images());
      }
    }

    /** The collection of one page in `Collect`. */
    method CleanNext(i: nat, page: Page, ghost h: O.Heap<Handle>, ghost lists: seq<seq<Handle>>) returns (progress: Progress)
      requires Valid() && i < |pages| == |lists| && page == pages[i] && O.Shaped(h) && W.Spread(h, lists)
      requires W.Cleaned(h, lists, Objects(), OnPages(), i, held, locks)
      modifies this`gcCount, this`clock, this`lookup, page`allocations
      modifies handles`referencedBy, handles`garbage, handles`fields, handles`destroyed, handles`markBits
      ensures !progress.Corrupted? && (progress.NoIdLeft? <==> old(gcCount) >= MAX_COLLECTORS)
      ensures progress.NoLockEver? ==>
                !C.Orderly(old(Objects()), held) && forall n :: i < n <= |pages| ==> W.WaitsOn(h, lists, n, held, locks, true)
      ensures progress.Regular() ==> Valid() && Gentle(old(Objects()), old(Images()), Objects(), Images())
      ensures progress.Regular() ==> gcCount == old(gcCount) + if progress.Done? then 1 else 0
      ensures progress.Regular() ==>
                W.Cleaned(h, lists, Objects(), OnPages(), if progress.Done? then i + 1 else i, held, locks)
      ensures O.Shaped(old(Objects())) && O.Balanced(old(Objects())) && forall k :: 0 <= k < |old(On(page))| ==> old(On(page))[k] in handles
      ensures progress.Done? ==>
                var r := C.CollectList(old(Objects()), old(On(page)), locks, old(clock));
                var left := LeftItems(r.heap.destroyed, old(On(page)), old(page.allocations));
                && clock == r.clock && |On(page)| == |page.allocations| && ItemsOf(page.allocations, On(page)) == left
                && LayoutsOf(pages) == old(LayoutsOf(pages))[i := D.Blocks(left)]
    {
      hide Objects, Addresses, HeapOf, Valid, On, OnPages, C.CollectList, C.Orderly, Images, Gentle;
      hide W.Cleaned, W.WaitsOn, W.PassWaits, W.Spread, A.SameElsewhere, LayoutsOf, ItemsOf, LeftItems, D.Blocks;
      ghost var x, before, layouts := Addresses(), OnPages(), LayoutsOf(pages);
      ValidIsShaped();
      OnPagesAt(i);
      ViewPages();
      PagesDiffer(i);
      OnAreHandles(page);
      W.CleanedNext(h, lists, Objects(), before, i, held, locks, clock);
      progress := ReclaimPage(page);
      OnPagesAt(i);
      if progress.Done? {
        SameOtherPages(x, before, i);
        BlocksOfItems(page.allocations, On(page));
        OneLayout(layouts, i);
      }
    }

    /** Only the layout of page `i` is another one. */
    lemma OneLayout(layouts: seq<seq<L.Block>>, i: nat)
      requires i < |pages| == |layouts| && forall k :: 0 <= k < |pages| && k != i ==> pages[k].allocations == layouts[k]
      ensures LayoutsOf(pages) == layouts[i := pages[i].allocations]
    {
      hide LayoutsOf;
    }

    /** The compaction of one page in `Collect`. */
    method CompactNext(i: nat, page: Page) returns (intact: bool)
      requires Valid() && i < |pages| && page == pages[i]
      modifies this`lookup, this`clock, handles`start, handles`size, handles`fields, page`allocations, page.memory
      ensures intact ==> Valid() && Objects() == old(Objects()) && OnPages() == old(OnPages())
      ensures intact ==> Gentle(old(Objects()), old(Images()), Objects(), Images())
      ensures !intact ==> !C.Sturdy(old(Objects()), Failed())
      ensures |old(On(page))| == |old(page.allocations)|
      ensures intact ==>
                var packed := PackedWith(page.base, old(ItemsOf(page.allocations, On(page))), locks, old(clock));
                LayoutsOf(pages) == old(LayoutsOf(pages))[i := D.Blocks(packed)]
    {
      hide Objects, Addresses, HeapOf, Valid, On, OnPages, Images, Unharmed, Gentle, A.SameElsewhere, C.Sturdy, Failed, LargeSpans;
      hide LayoutsOf, ItemsOf, PackedWith, D.Blocks;
      ghost var x, before, layouts := Addresses(), OnPages(), LayoutsOf(pages);
      OnPagesAt(i);
      ViewPages();
      PagesDiffer(i);
      OnAreHandles(page);
      intact := CompactPage(page);
      if intact {
        SameOtherPages(x, before, i);
        assert before[i := before[i]] == before;
        SameObjectsAreGentle(Objects(), old(Images()), Images());
        BlocksOfItems(page.allocations, On(page));
        OneLayout(layouts, i);
      }
    }

    /** One turn of `Collect`; `s` and `images` are from its start. */
    method CollectInTurn(i: nat, page: Page, defragment: bool, ghost s: Snapshot, ghost images: map<Handle, seq<Byte>>) returns (progress: Progress)
      requires Valid() && i < |pages| && page == pages[i] && Sensible(s) && s.pages == pages
      requires Gentle(s.heap, images, Objects(), Images())
      requires W.Cleaned(s.heap, s.lists, Objects(), OnPages(), i, held, locks) && LaidOut(s, LayoutsOf(pages), i, defragment, locks)
      modifies this`gcCount, this`clock, this`lookup, page`allocations, page.memory
      modifies handles`start, handles`size
      modifies handles`referencedBy, handles`garbage, handles`fields, handles`destroyed, handles`markBits
      ensures progress.NoIdLeft? <==> old(gcCount) >= MAX_COLLECTORS
      ensures progress.NoLockEver? ==>
                !C.Orderly(s.heap, held) && forall n :: i < n <= |pages| ==> W.WaitsOn(s.heap, s.lists, n, held, locks, true)
      ensures progress.Corrupted? ==> defragment && !C.Sturdy(s.heap, old(Failed()))
      ensures progress.Regular() ==> Valid() && Gentle(s.heap, images, Objects(), Images())
      ensures progress.Regular() ==> gcCount == old(gcCount) + if progress.Done? then 1 else 0
      ensures progress.Regular() ==>
                W.Cleaned(s.heap, s.lists, Objects(), OnPages(), if progress.Done? then i + 1 else i, held, locks)
      ensures progress.Done? ==> LaidOut(s, LayoutsOf(pages), i + 1, defragment, locks)
    {
      hide Objects, Addresses, HeapOf, Valid, On, OnPages, C.Orderly, C.Sturdy, Images, Gentle, Failed, LayoutsOf, LaidOut, OutlookWith;
      hide W.Cleaned, W.WaitsOn, W.Spread, Final;
      ghost var before, itsImages := Objects(), Images();
      GentleKeepsOrder(s.heap, images, before, itsImages, held, Failed());
      ValidIsShaped();
      OnPagesAt(i);
      OnAreHandles(page);
      LaidOutNext(s, before, OnPages(), LayoutsOf(pages), i, defragment, held, locks, clock);
      progress := CollectNext(i, page, defragment, s.heap, s.lists);
      if progress.Regular() {
        GentleSteps(s.heap, images, before, itsImages, Objects(), Images());
      }
    }

    /**
     `Collect`: every page is collected and, if asked for, compacted. Each page costs a collector id.
     If no lock is refused and no live cycle exists, just the reachable objects stay, in order, where
     they were or packed, and it waits forever for a lock if and only if the garbage of the pages that
     it comes to has a snag.
     */
    method Collect(defragment: bool) returns (progress: Progress)
      requires Valid() && gcCount <= MAX_COLLECTORS
      modifies this`gcCount, this`clock, this`lookup, pages`allocations, set p | p in pages :: p.memory
      modifies handles`start, handles`size
      modifies handles`referencedBy, handles`garbage, handles`fields, handles`destroyed, handles`markBits
      ensures progress.NoLockEver? ==> !C.Orderly(old(Objects()), held)
      ensures progress.Corrupted? ==> defragment && !C.Sturdy(old(Objects()), Failed())
      ensures progress.Regular() ==> Valid() && Gentle(old(Objects()), old(Images()), Objects(), Images())
      ensures progress.Regular() ==> (progress.Done? <==> old(gcCount) + |pages| <= MAX_COLLECTORS)
      ensures progress.Regular() ==> gcCount == if progress.Done? then old(gcCount) + |pages| else MAX_COLLECTORS
      ensures Sensible(old(Snap()))
      ensures !progress.Corrupted? ==>
                W.WaitsOn(old(Objects()), old(OnPages()), Least(|pages|, MAX_COLLECTORS - old(gcCount)), held, locks, progress.NoLockEver?)
      ensures progress.Done? && C.Collectable(old(Objects())) && W.Free(locks) ==>
                && OnPages() == W.Swept(old(Objects()), old(OnPages()), |pages|)
                && LayoutsOf(pages) == LayoutsAfter(old(Snap()), |pages|, defragment)
    {
      hide Objects, Addresses, HeapOf, Valid, On, OnPages, C.Orderly, C.Sturdy, Images, Gentle, Failed, LayoutsOf, LaidOut, LayoutsAfter, OutlookWith;
      hide W.Cleaned, W.WaitsOn, W.Spread, W.Swept, W.Free, C.Collectable, Final;
      ghost var s, images := Snap(), Images();
      StayingIsGentle(s.heap, images);
      SnapIsSensible();
      W.CleanedAtStart(s.heap, s.lists, held, locks);
      LaidOutAtStart(s, defragment, locks);
      var i := 0;
      while i < |pages|
        invariant Valid() && Gentle(s.heap, images, Objects(), Images())
        invariant i <= |pages| && gcCount == old(gcCount) + i <= MAX_COLLECTORS
        invariant W.Cleaned(s.heap, s.lists, Objects(), OnPages(), i, held, locks) && LaidOut(s, LayoutsOf(pages), i, defragment, locks)
      {
        progress := CollectInTurn(i, pages[i], defragment, s, images);
        if !progress.Regular() {
          return;
        }
        if progress.NoIdLeft? {
          W.CleanedDidNotWait(s.heap, s.lists, Objects(), OnPages(), i, held, locks);
          return;
        }
        i := i + 1;
      }
      W.CleanedDidNotWait(s.heap, s.lists, Objects(), OnPages(), i, held, locks);
      W.CleanedAtEnd(s.heap, s.lists, Objects(), OnPages(), i, held, locks);
      LaidOutAtEnd(s, LayoutsOf(pages), defragment, locks);
      progress := Done;
    }

    // -------------------------------------------------------------- finding the owner of an address

    /** `TryGetHandleForObjectAllocation`, and `LookupObject` for an address that is not null. */
    function TryGetHandle(address: nat): Option<Handle>
      reads this`lookup
    {
      if address in lookup then Some(lookup[address]) else None
    }

    /**
     The scan over the lookup, in whatever order the map has. As its upper bound is inclusive, it is
     certain to find the owner of an address only if no object ends there.
     */
    method GetOwningObject(address: nat) returns (owner: Option<Handle>)
      requires Valid()
      ensures owner.Some? ==> owner.value in lookup.Values && Accepted(owner.value, address)
      ensures owner.None? ==> forall h :: h in lookup.Values ==> !Accepted(h, address)
      ensures (forall h :: h in lookup.Values ==> h.start + h.size != address) ==>
                forall h :: h in lookup.Values && h.start <= address < h.start + h.size ==> owner == Some(h)
    {
      hide Objects, Addresses, HeapOf, Valid;
      OwnerOf(address);
      var addresses := lookup.Keys;
      while addresses != {}
        invariant addresses <= lookup.Keys
        invariant forall a :: a in lookup && a !in addresses ==> !Accepted(lookup[a], address)
        decreases addresses
      {
        var a :| a in addresses;
        var handle := lookup[a];
        if handle.start <= address && handle.start + handle.size >= address {
          return Some(handle);
        }
        addresses := addresses - {a};
      }
      owner := None;
    }

    ghost predicate Accepted(handle: Handle, address: nat)
      reads handle`start, handle`size
    {
      handle.start <= address <= handle.start + handle.size
    }

    /**
     `LookupObjectOrGetOwningObject`: for an address inside an object this is that object, whatever
     the order of the scan.
     */
    method LookupObjectOrGetOwningObject(address: nat) returns (owner: Option<Handle>)
      requires Valid()
      ensures forall h :: h in lookup.Values && h.start <= address < h.start + h.size ==> owner == Some(h)
      ensures owner.Some? ==> owner.value in lookup.Values && Accepted(owner.value, address)
      ensures owner.None? ==> forall h :: h in lookup.Values ==> !Accepted(h, address)
    {
      hide Objects, Addresses, HeapOf, Valid;
      OwnerOf(address);
      owner := TryGetHandle(address);
      if owner.None? {
        owner := GetOwningObject(address);
      }
    }

    lemma OwnerOf(address: nat)
      requires Valid()
      ensures address in lookup ==> Accepted(lookup[address], address)
      ensures address in lookup ==> forall h :: h in lookup.Values && h.start <= address < h.start + h.size ==> h == lookup[address]
      ensures address !in lookup ==>
                forall h, k :: h in lookup.Values && h.start <= address < h.start + h.size && k in lookup.Values && Accepted(k, address) ==> k == h
    {
      hide A.Agrees, A.Undead, O.Shaped, O.Balanced, TypesFit, HeapOf;
      ViewLarge();
      A.EntriesKnown(Addresses());
      forall a | a in lookup && lookup[a].start <= address < lookup[a].start + lookup[a].size
        ensures address in lookup ==> lookup[a] == lookup[address]
        ensures address !in lookup ==> forall b :: b in lookup && Accepted(lookup[b], address) ==> lookup[b] == lookup[a]
      {
        if address in lookup {
          A.StartIsOwned(Addresses(), a, address);
        } else {
          A.OwnerIsUnique(Addresses(), a, address);
        }
      }
    }
  }
}
