/**
 What a request for a small object finds on the pages: room as they are, room once unreachable
 objects are gone, room once the others are packed, or none; and on which page it is served.
 */
module Requests {
  import opened Wrappers
  import L = Layout
  import R = References
  import O = Objects
  import C = Collection
  import D = Compaction
  import V = Vectors
  import W = Waiting
  import A = AddressIndex
  import opened Handles

  const MAX_COLLECTORS: nat := 8

  function Least(a: nat, b: nat): nat {
    if a < b then a else b
  }

  /**
   How a pass goes: it returns, or waits forever for a collector id or for a lock. `Corrupted` means
   that compaction has moved an object without its fields, after which nothing is promised.
   */
  datatype Progress = Done | NoIdLeft | NoLockEver | Corrupted {
    predicate Regular() {
      Done? || NoIdLeft?
    }
  }

  // ---------------------------------------------------------------- the objects of one page

  /** The block of an object as compaction sees it. */
  ghost function ItemOf(b: L.Block, handle: Handle): D.Item {
    D.Item(b, handle.objectType.size, handle.objectType.alignment, handle.immovable)
  }

  ghost function ItemsOf(blocks: seq<L.Block>, on: seq<Handle>): (r: seq<D.Item>)
    requires |blocks| == |on|
    ensures |r| == |blocks|
  {
    seq(|blocks|, k requires 0 <= k < |blocks| => ItemOf(blocks[k], on[k]))
  }

  lemma {:induction false} ItemsOfMore(blocks: seq<L.Block>, on: seq<Handle>)
    requires |blocks| == |on| > 0
    ensures ItemsOf(blocks, on) == [ItemOf(blocks[0], on[0])] + ItemsOf(blocks[1..], on[1..])
  {
  }

  lemma {:induction false} BlocksOfItems(blocks: seq<L.Block>, on: seq<Handle>)
    requires |blocks| == |on|
    ensures D.Blocks(ItemsOf(blocks, on)) == blocks
  {
  }

  ghost function LayoutsOf(pages: seq<Page>): (r: seq<seq<L.Block>>)
    reads pages`allocations
    ensures |r| == |pages| && forall k :: 0 <= k < |r| ==> r[k] == pages[k].allocations
  {
    if pages == [] then [] else LayoutsOf(pages[..|pages| - 1]) + [pages[|pages| - 1].allocations]
  }

  /** What is left of a list without the objects in `dead`. */
  ghost function Left<N>(dead: set<N>, on: seq<N>): seq<N> {
    if on == [] then [] else (if on[0] in dead then [] else [on[0]]) + Left(dead, on[1..])
  }

  /** And what is left of their blocks. */
  ghost function LeftItems(dead: set<Handle>, on: seq<Handle>, blocks: seq<L.Block>): seq<D.Item> {
    if on == [] || blocks == [] then []
    else (if on[0] in dead then [] else [ItemOf(blocks[0], on[0])]) + LeftItems(dead, on[1..], blocks[1..])
  }

  lemma {:induction false} SameDead(dead: set<Handle>, dead': set<Handle>, on: seq<Handle>, blocks: seq<L.Block>)
    requires forall n :: n in on ==> (n in dead <==> n in dead')
    ensures LeftItems(dead, on, blocks) == LeftItems(dead', on, blocks)
    decreases |on|
  {
    if on != [] && blocks != [] {
      SameDead(dead, dead', on[1..], blocks[1..]);
    }
  }

  /** The objects lie at the blocks. */
  ghost predicate Matches(places: map<Handle, A.Place<Page>>, base: nat, on: seq<Handle>, blocks: seq<L.Block>) {
    |on| == |blocks| && forall k :: 0 <= k < |on| ==>
      on[k] in places && places[on[k]].start == base + blocks[k].offset && places[on[k]].size == blocks[k].size
  }

  /** If objects go and nothing moves, the blocks of the others are what is left. */
  lemma {:induction false} BlocksLeft(places: map<Handle, A.Place<Page>>, base: nat, dead: set<Handle>, on: seq<Handle>, blocks: seq<L.Block>,
      on': seq<Handle>, blocks': seq<L.Block>)
    requires Matches(places, base, on, blocks) && Matches(places, base, on', blocks') && on' == Left(dead, on)
    ensures ItemsOf(blocks', on') == LeftItems(dead, on, blocks)
    decreases |on|
  {
    hide ItemsOf;
    if on != [] {
      if on[0] in dead {
        BlocksLeft(places, base, dead, on[1..], blocks[1..], on', blocks');
      } else {
        assert on'[0] == on[0] && on'[1..] == Left(dead, on[1..]);
        BlocksLeft(places, base, dead, on[1..], blocks[1..], on'[1..], blocks'[1..]);
        ItemsOfMore(blocks', on');
      }
    }
  }

  /** A pass leaves just what it does not destroy. */
  lemma {:induction false} SurvivorsAreLeft<N>(h: O.Heap<N>, list: seq<N>, locks: nat -> bool, clock: nat)
    requires O.Shaped(h) && O.Balanced(h) && (forall i :: 0 <= i < |list| ==> list[i] in h.refs)
    requires V.Distinct(list) && forall n :: n in list ==> n !in h.destroyed
    ensures var r := C.CollectList(h, list, locks, clock);
            && r.survivors == Left(r.heap.destroyed, list)
            && forall n :: n in r.heap.destroyed ==> n in h.destroyed || n in list
    decreases |list|
  {
    hide O.Shaped, O.Balanced, C.Inspect;
    if list != [] {
      var first := C.Inspect(h, list[0], locks, clock);
      C.InspectAccounts(h, list[0], locks, clock);
      assert forall n :: n in list[1..] ==> n in list && n != list[0];
      SurvivorsAreLeft(first.heap, list[1..], locks, first.clock);
      C.CollectListAccounts(first.heap, list[1..], locks, first.clock);
    }
  }

  // ---------------------------------------------------------------- room on one page

  /** Some free range of the page is aligned and large enough. */
  ghost predicate Roomy(base: nat, blocks: seq<L.Block>, size: nat, alignment: nat)
    requires alignment > 0
  {
    exists o: nat :: L.Fits(base, blocks, o, size, alignment)
  }

  /** There is no lower one. */
  ghost predicate LowestFit(base: nat, blocks: seq<L.Block>, size: nat, alignment: nat, o: int)
    requires alignment > 0
  {
    o >= 0 && L.Fits(base, blocks, o, size, alignment) && forall p: nat :: L.Fits(base, blocks, p, size, alignment) ==> o <= p
  }

  lemma FirstFitIsLowestFit(base: nat, blocks: seq<L.Block>, size: nat, alignment: nat)
    requires L.Ordered(blocks) && alignment > 0 && size > 0
    ensures var r := L.FirstFit(base, blocks, size, alignment, 0);
            && (r.Some? <==> Roomy(base, blocks, size, alignment))
            && (r.Some? ==> LowestFit(base, blocks, size, alignment, r.value.offset))
  {
    L.FirstFitDecides(base, blocks, size, alignment);
  }

  /** The object goes to the lowest place of the first of the two layouts that has room, if one has. */
  ghost predicate Placed(base: nat, first: seq<L.Block>, second: seq<L.Block>, size: nat, alignment: nat, found: Option<int>)
    requires alignment > 0
  {
    && (found.Some? <==> Roomy(base, first, size, alignment) || Roomy(base, second, size, alignment))
    && (found.Some? ==> LowestFit(base, if Roomy(base, first, size, alignment) then first else second, size, alignment, found.value))
  }

  /** The layouts that the three attempts on a page find: as it is, after a collection, after a compaction. */
  datatype Outlook = Outlook(now: seq<L.Block>, collected: seq<L.Block>, compacted: seq<L.Block>)

  datatype Room = Now | AfterCollection | AfterCompaction | NoRoom

  /** The first of the three that has room. */
  ghost function RoomIn(base: nat, outlook: Outlook, size: nat, alignment: nat): Room
    requires alignment > 0
  {
    if Roomy(base, outlook.now, size, alignment) then Now
    else if Roomy(base, outlook.collected, size, alignment) then AfterCollection
    else if Roomy(base, outlook.compacted, size, alignment) then AfterCompaction
    else NoRoom
  }

  ghost function LayoutFor(outlook: Outlook, room: Room): seq<L.Block> {
    match room
    case Now => outlook.now
    case AfterCollection => outlook.collected
    case _ => outlook.compacted
  }

  ghost function PackedWith(base: nat, items: seq<D.Item>, locks: nat -> bool, clock: nat): seq<D.Item> {
    if D.Laid(base, items, 0) then D.Compact(base, items, 0, locks, clock).items else items
  }

  /** What becomes of a page if the attempts to take locks come out like that. */
  ghost function OutlookWith(h: O.Heap<Handle>, on: seq<Handle>, base: nat, blocks: seq<L.Block>, locks: nat -> bool, clock: nat): Outlook
    requires O.Shaped(h) && O.Balanced(h) && forall i :: 0 <= i < |on| ==> on[i] in h.refs
  {
    var r := C.CollectList(h, on, locks, clock);
    var left := LeftItems(r.heap.destroyed, on, blocks);
    Outlook(blocks, D.Blocks(left), D.Blocks(PackedWith(base, left, locks, r.clock)))
  }

  /** The unreachable objects. */
  ghost function Dead(h: O.Heap<Handle>): set<Handle> {
    if O.Shaped(h) then set n | n in h.refs && !O.Live(h, n) else {}
  }

  /** What becomes of it if no lock is refused: unreachable objects go, and the others are packed. */
  ghost function OutlookOf(h: O.Heap<Handle>, on: seq<Handle>, base: nat, blocks: seq<L.Block>): Outlook {
    var left := LeftItems(Dead(h), on, blocks);
    Outlook(blocks, D.Blocks(left), D.Blocks(PackedWith(base, left, t => true, 0)))
  }

  lemma {:induction false} FreeLocksPackAlike(base: nat, items: seq<D.Item>, low: nat, locks: nat -> bool, clock: nat, locks': nat -> bool, clock': nat)
    requires D.Laid(base, items, low) && W.Free(locks) && W.Free(locks')
    ensures D.Compact(base, items, low, locks, clock).items == D.Compact(base, items, low, locks', clock').items
    decreases |items|
  {
    hide D.Laid, D.Compact, D.Settled, D.WantsMove, D.Typed;
    if items == [] {
      D.CompactOfNone(base, low, locks, clock);
      D.CompactOfNone(base, low, locks', clock');
    } else {
      D.CompactByOne(base, items, low, locks, clock);
      D.CompactByOne(base, items, low, locks', clock');
      var b := D.Settled(base, low, items[0], true);
      assert locks(clock) && locks'(clock');
      FreeLocksPackAlike(base, items[1..], L.End(b), locks, if D.WantsMove(base, low, items[0]) then clock + 1 else clock,
                         locks', if D.WantsMove(base, low, items[0]) then clock' + 1 else clock');
    }
  }

  /** With no live cycle and all locks free, what a pass destroys of a list are its unreachable objects. */
  lemma PassDestroysDead(h: O.Heap<Handle>, on: seq<Handle>, locks: nat -> bool, clock: nat)
    requires C.Collectable(h) && (forall i :: 0 <= i < |on| ==> on[i] in h.refs) && W.Free(locks)
    ensures forall n :: n in on ==> (n in C.CollectList(h, on, locks, clock).heap.destroyed <==> n in Dead(h))
  {
    hide O.Balanced, O.FlagsSound, R.NoLiveCycle, O.Live, C.CollectList;
    C.CollectListIsSafe(h, on, locks, clock);
    C.CollectListIsComplete(h, on, locks, clock);
    C.CollectListAccounts(h, on, locks, clock);
    C.LiveOnesAre(h, on);
    C.DestroyedIsUnreachable(h);
  }

  /** With all locks free the outlook follows from reachability, at any later time at which that is the same. */
  lemma FreeOutlook(h0: O.Heap<Handle>, h: O.Heap<Handle>, on: seq<Handle>, base: nat, blocks: seq<L.Block>, locks: nat -> bool, clock: nat)
    requires C.Collectable(h0) && C.Collectable(h) && C.SameLive(h0, h) && (forall i :: 0 <= i < |on| ==> on[i] in h.refs) && W.Free(locks)
    ensures OutlookWith(h, on, base, blocks, locks, clock) == OutlookOf(h0, on, base, blocks)
  {
    hide O.Balanced, O.FlagsSound, R.NoLiveCycle, O.Live, C.CollectList, D.Compact, D.Laid;
    PassDestroysDead(h, on, locks, clock);
    var r := C.CollectList(h, on, locks, clock);
    assert forall n :: n in on ==> (n in Dead(h) <==> n in Dead(h0));
    SameDead(r.heap.destroyed, Dead(h0), on, blocks);
    var left := LeftItems(Dead(h0), on, blocks);
    if D.Laid(base, left, 0) {
      FreeLocksPackAlike(base, left, 0, locks, r.clock, t => true, 0);
    }
  }

  /**
   The outcome of all attempts on one page: without room at first, a collector id is taken and the page
   collected, which may end in a wait; then the object goes to the lowest place of the first layout
   with room.
   */
  ghost predicate Tried(base: nat, outlook: Outlook, size: nat, alignment: nat, waits: bool, ids: nat, ids': nat, progress: Progress, found: Option<int>)
    requires alignment > 0
  {
    var room := RoomIn(base, outlook, size, alignment);
    && (room.Now? ==> progress.Done? && found.Some? && ids' == ids)
    && (!room.Now? ==>
          && (progress.NoIdLeft? <==> ids >= MAX_COLLECTORS) && (progress.NoLockEver? <==> ids < MAX_COLLECTORS && waits)
          && (progress.Done? ==> ids' == ids + 1 && (found.Some? <==> !room.NoRoom?)))
    && (found.Some? ==> LowestFit(base, LayoutFor(outlook, room), size, alignment, found.value))
  }

  // ---------------------------------------------------------------- the first page of which the lock is free

  /** Which of `n` attempts to take locks from the time `clock` on succeeds first, or `n`. */
  function FirstFree(locks: nat -> bool, clock: nat, n: nat, i: nat): (r: nat)
    requires i <= n
    ensures i <= r <= n && (r < n ==> locks(clock + r))
    decreases n - i
  {
    if i == n || locks(clock + i) then i else FirstFree(locks, clock, n, i + 1)
  }

  lemma {:induction false} RefusedBefore(locks: nat -> bool, clock: nat, n: nat, i: nat, k: nat)
    requires i <= n && i <= k < FirstFree(locks, clock, n, i)
    ensures !locks(clock + k)
    decreases n - i
  {
    if i < k {
      RefusedBefore(locks, clock, n, i + 1, k);
    }
  }

  /** It has room. */
  ghost predicate RoomOnFirst(pages: seq<Page>, layouts: seq<seq<L.Block>>, locks: nat -> bool, time: nat, size: nat, alignment: nat)
    requires alignment > 0 && |layouts| == |pages|
  {
    var i := FirstFree(locks, time, |pages|, 0);
    i < |pages| && Roomy(pages[i].base, layouts[i], size, alignment)
  }

  /** The search has come to page `i`. It has done nothing as long as all locks were refused, and else there was no room. */
  ghost predicate Awaiting(pages: seq<Page>, layouts: seq<seq<L.Block>>, locks: nat -> bool, time: nat, size: nat, alignment: nat,
      i: nat, clock: nat, now: seq<seq<L.Block>>)
    requires alignment > 0 && |layouts| == |pages|
  {
    if i <= FirstFree(locks, time, |pages|, 0) then clock == time + i && now == layouts else !RoomOnFirst(pages, layouts, locks, time, size, alignment)
  }

  lemma AwaitingStarts(pages: seq<Page>, layouts: seq<seq<L.Block>>, locks: nat -> bool, time: nat, size: nat, alignment: nat)
    requires alignment > 0 && |layouts| == |pages|
    ensures Awaiting(pages, layouts, locks, time, size, alignment, 0, time, layouts)
  {
  }

  lemma AwaitingNext(pages: seq<Page>, layouts: seq<seq<L.Block>>, locks: nat -> bool, time: nat, size: nat, alignment: nat,
      i: nat, clock: nat, now: seq<seq<L.Block>>, clock': nat, now': seq<seq<L.Block>>, found: bool)
    requires alignment > 0 && i < |layouts| == |pages| == |now| && Awaiting(pages, layouts, locks, time, size, alignment, i, clock, now)
    requires !locks(clock) ==> clock' == clock + 1 && now' == now
    requires locks(clock) && Roomy(pages[i].base, now[i], size, alignment) ==> found
    ensures !found ==> Awaiting(pages, layouts, locks, time, size, alignment, i + 1, clock', now')
    ensures !found && locks(clock) ==> !RoomOnFirst(pages, layouts, locks, time, size, alignment)
  {
    hide Roomy;
    if i < FirstFree(locks, time, |pages|, 0) {
      RefusedBefore(locks, time, |pages|, 0, i);
    }
  }

  lemma AwaitingEnds(pages: seq<Page>, layouts: seq<seq<L.Block>>, locks: nat -> bool, time: nat, size: nat, alignment: nat, clock: nat,
      now: seq<seq<L.Block>>)
    requires alignment > 0 && |layouts| == |pages| && Awaiting(pages, layouts, locks, time, size, alignment, |pages|, clock, now)
    ensures !RoomOnFirst(pages, layouts, locks, time, size, alignment)
  {
  }

  // ---------------------------------------------------------------- page after page

  /** The objects, what lies on the pages, and the pages themselves. */
  datatype Snapshot = Snapshot(heap: O.Heap<Handle>, lists: seq<seq<Handle>>, layouts: seq<seq<L.Block>>, pages: seq<Page>)

  ghost predicate Sensible(s: Snapshot) {
    O.Shaped(s.heap) && W.Spread(s.heap, s.lists) && |s.lists| == |s.layouts| == |s.pages|
  }

  ghost function OutlookAt(s: Snapshot, k: nat): Outlook
    requires Sensible(s) && k < |s.pages|
  {
    OutlookOf(s.heap, s.lists[k], s.pages[k].base, s.layouts[k])
  }

  ghost function RoomAt(s: Snapshot, k: nat, size: nat, alignment: nat): Room
    requires Sensible(s) && k < |s.pages| && alignment > 0
  {
    RoomIn(s.pages[k].base, OutlookAt(s, k), size, alignment)
  }

  /** The first page, from page `i` on, that has room for the request at last, or how many there are. */
  ghost function FirstRoom(s: Snapshot, i: nat, size: nat, alignment: nat): (r: nat)
    requires Sensible(s) && i <= |s.pages| && alignment > 0
    ensures i <= r <= |s.pages| && (r < |s.pages| ==> !RoomAt(s, r, size, alignment).NoRoom?)
    decreases |s.pages| - i
  {
    if i == |s.pages| || !RoomAt(s, i, size, alignment).NoRoom? then i else FirstRoom(s, i + 1, size, alignment)
  }

  lemma {:induction false} NoRoomBefore(s: Snapshot, i: nat, k: nat, size: nat, alignment: nat)
    requires Sensible(s) && i <= |s.pages| && alignment > 0 && i <= k < FirstRoom(s, i, size, alignment)
    ensures RoomAt(s, k, size, alignment).NoRoom?
    decreases |s.pages| - i
  {
    if i < k {
      NoRoomBefore(s, i + 1, k, size, alignment);
    }
  }

  /** How many pages are collected for the request, if ids and locks allow. */
  ghost function Collected(s: Snapshot, size: nat, alignment: nat): (r: nat)
    requires Sensible(s) && alignment > 0
    ensures r <= |s.pages|
  {
    var k := FirstRoom(s, 0, size, alignment);
    if k < |s.pages| && !RoomAt(s, k, size, alignment).Now? then k + 1 else k
  }

  function IdsLeft(ids: nat): nat {
    if ids <= MAX_COLLECTORS then MAX_COLLECTORS - ids else 0
  }

  /**
   Where a small request is served if no lock is refused and no live cycle exists, as far as the pages
   go: at the lowest place of the first page that has room for it at last. All pages before are
   collected, and that one if need be; it waits forever if their garbage has a snag or there are too
   few ids, whichever comes first.
   */
  ghost predicate ServedFirst(s: Snapshot, size: nat, alignment: nat, ids: nat, held: set<Handle>, progress: Progress, page: Option<Page>, found: Option<int>)
    requires Sensible(s) && alignment > 0
  {
    var k, collected := FirstRoom(s, 0, size, alignment), Collected(s, size, alignment);
    var snag := SnagAhead(s, size, alignment, ids, held);
    && (progress.NoLockEver? <==> snag)
    && (progress.NoIdLeft? <==> !snag && IdsLeft(ids) < collected)
    && (progress.Done? ==> (found.Some? <==> k < |s.pages|))
    && (found.Some? ==>
          && k < |s.pages| && page == Some(s.pages[k])
          && LowestFit(s.pages[k].base, LayoutFor(OutlookAt(s, k), RoomAt(s, k, size, alignment)), size, alignment, found.value))
  }

  /** The pages before page `i` have been collected and packed, and had no room for the request. */
  ghost predicate Looking(s: Snapshot, s': Snapshot, size: nat, alignment: nat, ids: nat, ids': nat, i: nat, held: set<Handle>, locks: nat -> bool)
    requires Sensible(s) && alignment > 0
  {
    C.Collectable(s.heap) && W.Free(locks) ==>
      && i <= |s.pages| == |s'.layouts| == |s'.lists| && s'.layouts[i..] == s.layouts[i..]
      && W.Cleaned(s.heap, s.lists, s'.heap, s'.lists, i, held, locks)
      && ids' == ids + i && (i > 0 ==> ids' <= MAX_COLLECTORS) && i <= FirstRoom(s, 0, size, alignment)
  }

  /** Some object that is destroyed for the request never is, as it holds what stays locked. */
  ghost predicate SnagAhead(s: Snapshot, size: nat, alignment: nat, ids: nat, held: set<Handle>)
    requires Sensible(s) && alignment > 0
  {
    W.Snagged(s.heap, W.GarbageOf(s.heap, s.lists, Least(Collected(s, size, alignment), IdsLeft(ids))), s.heap.destroyed + held)
  }

  lemma LookingStarts(s: Snapshot, size: nat, alignment: nat, ids: nat, held: set<Handle>, locks: nat -> bool)
    requires Sensible(s) && alignment > 0
    ensures Looking(s, s, size, alignment, ids, ids, 0, held, locks)
  {
    W.CleanedAtStart(s.heap, s.lists, held, locks);
  }

  /** The outlook of the next page is that at the start. */
  lemma LookingAhead(s: Snapshot, s': Snapshot, size: nat, alignment: nat, ids: nat, ids': nat, i: nat, held: set<Handle>, locks: nat -> bool, clock: nat)
    requires Sensible(s) && alignment > 0 && Looking(s, s', size, alignment, ids, ids', i, held, locks)
    requires C.Collectable(s.heap) && W.Free(locks) && i < |s.pages|
    ensures i < |s'.layouts| == |s'.lists| && s'.lists[i] == s.lists[i] && s'.layouts[i] == s.layouts[i]
    ensures O.Shaped(s'.heap) && O.Balanced(s'.heap) && forall k :: 0 <= k < |s.lists[i]| ==> s.lists[i][k] in s'.heap.refs
    ensures OutlookWith(s'.heap, s'.lists[i], s.pages[i].base, s'.layouts[i], locks, clock) == OutlookAt(s, i)
  {
    hide O.Balanced, O.FlagsSound, R.NoLiveCycle, O.Live, OutlookWith, OutlookOf, W.Snagged, FirstRoom;
    assert s'.layouts[i..][0] == s.layouts[i..][0];
    assert forall k :: 0 <= k < |s.lists[i]| ==> s.lists[i][k] in s.lists[i];
    FreeOutlook(s.heap, s'.heap, s.lists[i], s.pages[i].base, s.layouts[i], locks, clock);
  }

  lemma RoomIsFirst(s: Snapshot, i: nat, size: nat, alignment: nat)
    requires Sensible(s) && alignment > 0 && i < |s.pages| && i <= FirstRoom(s, 0, size, alignment)
    ensures !RoomAt(s, i, size, alignment).NoRoom? ==> FirstRoom(s, 0, size, alignment) == i
    ensures RoomAt(s, i, size, alignment).NoRoom? ==> i < FirstRoom(s, 0, size, alignment)
    ensures if RoomAt(s, i, size, alignment).Now? then Collected(s, size, alignment) == i else Collected(s, size, alignment) >= i + 1
    ensures !RoomAt(s, i, size, alignment).NoRoom? && !RoomAt(s, i, size, alignment).Now? ==> Collected(s, size, alignment) == i + 1
  {
    hide RoomAt;
    if i < FirstRoom(s, 0, size, alignment) {
      NoRoomBefore(s, 0, i, size, alignment);
    }
  }

  /** What the attempts on page `i` come to: the request is served there, ends in a wait, or the search goes on. */
  lemma LookingNext(s: Snapshot, s': Snapshot, size: nat, alignment: nat, ids: nat, ids': nat, i: nat, held: set<Handle>, locks: nat -> bool, clock: nat,
      progress: Progress, ids'': nat, found: Option<int>)
    requires Sensible(s) && alignment > 0 && Looking(s, s', size, alignment, ids, ids', i, held, locks)
    requires C.Collectable(s.heap) && W.Free(locks) && i < |s.pages| && !progress.Corrupted? && (found.Some? ==> progress.Done?)
    requires O.Shaped(s'.heap) && O.Balanced(s'.heap) && i < |s'.lists| == |s.lists| && forall k :: 0 <= k < |s'.lists[i]| ==> s'.lists[i][k] in s'.heap.refs
    requires Tried(s.pages[i].base, OutlookAt(s, i), size, alignment, W.PassWaits(s'.heap, s'.lists[i], held, locks, clock), ids', ids'', progress, found)
    ensures !progress.Done? || found.Some? ==>
              ServedFirst(s, size, alignment, ids, held, progress, if found.Some? then Some(s.pages[i]) else None, found)
    ensures progress.Done? && found.None? ==>
              var r := C.CollectList(s'.heap, s'.lists[i], locks, clock);
              && ids'' == ids + i + 1 <= MAX_COLLECTORS && i + 1 <= FirstRoom(s, 0, size, alignment)
              && W.Cleaned(s.heap, s.lists, r.heap, s'.lists[i := r.survivors], i + 1, held, locks)
  {
    hide O.Shaped, O.Balanced, O.FlagsSound, R.NoLiveCycle, OutlookAt, LowestFit, W.Snagged, W.GarbageOf, W.Cleaned, W.Spread, W.PassWaits, FirstRoom,
         Collected, C.CollectList;
    RoomIsFirst(s, i, size, alignment);
    W.CleanedDidNotWait(s.heap, s.lists, s'.heap, s'.lists, i, held, locks);
    W.CleanedNext(s.heap, s.lists, s'.heap, s'.lists, i, held, locks, clock);
    var waits, room := W.PassWaits(s'.heap, s'.lists[i], held, locks, clock), RoomAt(s, i, size, alignment);
    var visited := Least(Collected(s, size, alignment), IdsLeft(ids));
    if room.Now? {
      assert visited == i;
    } else if ids' >= MAX_COLLECTORS {
      assert visited == i;
    } else if waits {
      assert i < visited <= |s.lists|;
      assert W.WaitsOn(s.heap, s.lists, visited, held, locks, true);
    } else {
      var r := C.CollectList(s'.heap, s'.lists[i], locks, clock);
      W.CleanedDidNotWait(s.heap, s.lists, r.heap, s'.lists[i := r.survivors], i + 1, held, locks);
      assert !room.NoRoom? ==> visited == i + 1;
    }
  }

  lemma LookingEnds(s: Snapshot, s': Snapshot, size: nat, alignment: nat, ids: nat, ids': nat, held: set<Handle>, locks: nat -> bool)
    requires Sensible(s) && alignment > 0 && Looking(s, s', size, alignment, ids, ids', |s.pages|, held, locks)
    requires C.Collectable(s.heap) && W.Free(locks)
    ensures ServedFirst(s, size, alignment, ids, held, Done, None, None) && ids' == ids + |s.pages|
  {
    hide O.Shaped, O.Balanced, O.FlagsSound, R.NoLiveCycle, OutlookAt, LowestFit, W.Snagged, W.GarbageOf, W.Cleaned, W.Spread;
    W.CleanedDidNotWait(s.heap, s.lists, s'.heap, s'.lists, |s.pages|, held, locks);
  }

  /** One turn of the search, from the states before and after it. */
  lemma LookingOn(s: Snapshot, s': Snapshot, s'': Snapshot, size: nat, alignment: nat, ids: nat, ids': nat, ids'': nat, i: nat, held: set<Handle>,
      locks: nat -> bool, clock: nat, progress: Progress, page: Option<Page>, found: Option<int>)
    requires Sensible(s) && alignment > 0 && i < |s.pages| && Looking(s, s', size, alignment, ids, ids', i, held, locks)
    requires !progress.Corrupted? && (found.Some? ==> progress.Done?) && page == if found.Some? then Some(s.pages[i]) else None
    requires |s'.lists| == |s'.layouts| == |s.pages| && O.Shaped(s'.heap) && O.Balanced(s'.heap)
    requires forall k :: 0 <= k < |s'.lists[i]| ==> s'.lists[i][k] in s'.heap.refs
    requires Tried(s.pages[i].base, OutlookWith(s'.heap, s'.lists[i], s.pages[i].base, s'.layouts[i], locks, clock), size, alignment,
                   W.PassWaits(s'.heap, s'.lists[i], held, locks, clock), ids', ids'', progress, found)
    requires progress.Done? && found.None? ==>
               var r := C.CollectList(s'.heap, s'.lists[i], locks, clock);
               s''.heap == r.heap && s''.lists == s'.lists[i := r.survivors] && |s''.layouts| == |s'.layouts|
               && forall k :: i < k < |s'.layouts| ==> s''.layouts[k] == s'.layouts[k]
    ensures progress.Done? && found.None? ==> Looking(s, s'', size, alignment, ids, ids'', i + 1, held, locks)
    ensures C.Collectable(s.heap) && W.Free(locks) && !(progress.Done? && found.None?) ==>
              ServedFirst(s, size, alignment, ids, held, progress, page, found)
  {
    hide C.Collectable, W.Free, Tried, OutlookWith, OutlookAt, W.Cleaned, W.PassWaits, C.CollectList, FirstRoom, ServedFirst, O.Shaped, O.Balanced, W.Spread;
    if C.Collectable(s.heap) && W.Free(locks) {
      LookingAhead(s, s', size, alignment, ids, ids', i, held, locks, clock);
      LookingNext(s, s', size, alignment, ids, ids', i, held, locks, clock, progress, ids'', found);
      assert s'.layouts[i + 1..] == s'.layouts[i..][1..] && s.layouts[i + 1..] == s.layouts[i..][1..];
    }
  }

  lemma LookingIfRefused(s: Snapshot, s': Snapshot, size: nat, alignment: nat, ids: nat, ids': nat, i: nat, held: set<Handle>, locks: nat -> bool, time: nat)
    requires Sensible(s) && alignment > 0 && !locks(time)
    ensures !W.Free(locks) && Looking(s, s', size, alignment, ids, ids', i, held, locks)
  {
    hide Sensible;
  }

  // ---------------------------------------------------------------- collecting every page

  ghost function Final(outlook: Outlook, defragment: bool): seq<L.Block> {
    if defragment then outlook.compacted else outlook.collected
  }

  /** The layouts when the first `i` pages are done, if no lock is refused. */
  ghost function LayoutsAfter(s: Snapshot, i: nat, defragment: bool): (r: seq<seq<L.Block>>)
    requires Sensible(s)
    ensures |r| == |s.pages|
  {
    seq(|s.pages|, k requires 0 <= k < |s.pages| => if k < i then Final(OutlookAt(s, k), defragment) else s.layouts[k])
  }

  ghost predicate LaidOut(s: Snapshot, layouts: seq<seq<L.Block>>, i: nat, defragment: bool, locks: nat -> bool)
    requires Sensible(s)
  {
    C.Collectable(s.heap) && W.Free(locks) ==> layouts == LayoutsAfter(s, i, defragment)
  }

  lemma LaidOutAtStart(s: Snapshot, defragment: bool, locks: nat -> bool)
    requires Sensible(s)
    ensures LaidOut(s, s.layouts, 0, defragment, locks)
  {
    assert LayoutsAfter(s, 0, defragment) == s.layouts;
  }

  lemma LaidOutNext(s: Snapshot, h: O.Heap<Handle>, lists: seq<seq<Handle>>, layouts: seq<seq<L.Block>>, i: nat, defragment: bool, held: set<Handle>,
      locks: nat -> bool, clock: nat)
    requires Sensible(s) && i < |s.pages| == |lists| == |layouts| && W.Cleaned(s.heap, s.lists, h, lists, i, held, locks) && LaidOut(s, layouts, i, defragment, locks)
    requires O.Shaped(h) && O.Balanced(h) && forall k :: 0 <= k < |lists[i]| ==> lists[i][k] in h.refs
    ensures LaidOut(s, layouts[i := Final(OutlookWith(h, lists[i], s.pages[i].base, layouts[i], locks, clock), defragment)], i + 1, defragment, locks)
  {
    hide O.Balanced, O.FlagsSound, R.NoLiveCycle, O.Live, OutlookWith, OutlookOf, W.Snagged;
    if C.Collectable(s.heap) && W.Free(locks) {
      assert lists[i] == s.lists[i] && layouts[i] == s.layouts[i];
      FreeOutlook(s.heap, h, s.lists[i], s.pages[i].base, s.layouts[i], locks, clock);
      assert LayoutsAfter(s, i + 1, defragment) == LayoutsAfter(s, i, defragment)[i := Final(OutlookAt(s, i), defragment)];
    }
  }

  lemma LaidOutAtEnd(s: Snapshot, layouts: seq<seq<L.Block>>, defragment: bool, locks: nat -> bool)
    requires Sensible(s) && LaidOut(s, layouts, |s.pages|, defragment, locks)
    ensures C.Collectable(s.heap) && W.Free(locks) ==> layouts == LayoutsAfter(s, |s.pages|, defragment)
  {
    hide C.Collectable, LayoutsAfter;
  }
}
