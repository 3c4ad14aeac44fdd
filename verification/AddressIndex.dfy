/**
 The address index: page lists, the large-object list, the lookup from addresses to handles and
 the address each handle records of itself, and why they keep agreeing.
 */
module AddressIndex {
  import opened Wrappers
  import opened Layout
  import opened Vectors

  /** Where an object lies: its `objectAllocation`, and the page unless it is a large object. */
  datatype Place<P> = Place(start: nat, size: nat, page: Option<P>)

  /** A page as far as addresses go: where it lies and what is allocated on it. */
  datatype PageView = PageView(base: nat, blocks: seq<Block>)

  /**
   `lookup` is `allocationToHandleLookup`, `places[n]` is what the handle `n` records of itself.
   Handles of destroyed objects keep their place but are not looked up.
   */
  datatype Index<N, P> = Index(pages: map<P, PageView>, large: seq<N>, lookup: map<nat, N>, places: map<N, Place<P>>)

  ghost predicate Apart(a: nat, aSize: nat, b: nat, bSize: nat) {
    a + aSize <= b || b + bSize <= a
  }

  ghost predicate PageGood(page: PageView) {
    Ordered(page.blocks) && forall i :: 0 <= i < |page.blocks| ==> page.blocks[i].size > 0
  }

  ghost predicate PagesGood<N, P>(x: Index<N, P>) {
    && (forall p :: p in x.pages ==> PageGood(x.pages[p]))
    && (forall p, q :: p in x.pages && q in x.pages && p != q ==> Apart(x.pages[p].base, PAGE_SIZE, x.pages[q].base, PAGE_SIZE))
  }

  /** The handle looked up at `place.start` records that place. */
  ghost predicate Registered<N, P>(x: Index<N, P>, place: Place<P>) {
    && place.start in x.lookup && x.lookup[place.start] in x.places
    && x.places[x.lookup[place.start]] == place
  }

  /** Some block of the page spans `size` bytes from the address `start` on. */
  ghost predicate OnPage(page: PageView, start: nat, size: nat)
    decreases |page.blocks|
  {
    page.blocks != []
    && (|| (start == page.base + page.blocks[0].offset && size == page.blocks[0].size)
        || OnPage(page.(blocks := page.blocks[1..]), start, size))
  }

  ghost predicate BlocksRegistered<N, P>(x: Index<N, P>) {
    forall p, start: nat, size: nat {:trigger OnPage(x.pages[p], start, size)} ::
      p in x.pages && OnPage(x.pages[p], start, size) ==> Registered(x, Place(start, size, Some(p)))
  }

  ghost predicate Placed<N, P>(x: Index<N, P>, n: N, place: Place<P>) {
    match place.page
    case Some(p) => p in x.pages && OnPage(x.pages[p], place.start, place.size)
    case None => n in x.large
  }

  ghost predicate EntriesPlaced<N, P>(x: Index<N, P>) {
    forall a :: a in x.lookup ==>
      && x.lookup[a] in x.places && x.places[x.lookup[a]].start == a
      && Placed(x, x.lookup[a], x.places[x.lookup[a]])
  }

  ghost predicate LargeGood<N, P>(x: Index<N, P>, n: N) {
    && n in x.places && x.places[n].size > PAGE_SIZE && x.places[n].page.None?
    && x.places[n].start in x.lookup && x.lookup[x.places[n].start] == n
    && forall p :: p in x.pages ==> Apart(x.places[n].start, x.places[n].size, x.pages[p].base, PAGE_SIZE)
  }

  ghost predicate LargeRegistered<N, P>(x: Index<N, P>) {
    && (forall n :: n in x.large ==> LargeGood(x, n))
    && (forall m, n :: m in x.large && n in x.large && m != n ==>
          Apart(x.places[m].start, x.places[m].size, x.places[n].start, x.places[n].size))
    && Distinct(x.large)
  }

  /**
   The index agrees: blocks and large objects on one side, lookup entries and handle addresses
   on the other, are in one-to-one correspondence, and no two of them share memory.
   */
  ghost predicate Agrees<N, P>(x: Index<N, P>) {
    PagesGood(x) && BlocksRegistered(x) && EntriesPlaced(x) && LargeRegistered(x)
  }

  // ---------------------------------------------------------------- owners

  ghost predicate Inside<P>(place: Place<P>, address: nat) {
    place.start <= address < place.start + place.size
  }

  /** The scans of the lookup accept the first address behind an object, too. */
  ghost predicate InsideOrBehind<P>(place: Place<P>, address: nat) {
    place.start <= address <= place.start + place.size
  }

  ghost predicate PlacesApart<P>(a: Place<P>, b: Place<P>) {
    Apart(a.start, a.size, b.start, b.size)
  }

  lemma {:induction false} BlockAt(page: PageView, i: nat)
    requires i < |page.blocks|
    ensures OnPage(page, page.base + page.blocks[i].offset, page.blocks[i].size)
    decreases i
  {
    if i > 0 {
      BlockAt(page.(blocks := page.blocks[1..]), i - 1);
    }
  }

  lemma {:induction false} FindBlock(page: PageView, start: nat, size: nat) returns (i: nat)
    requires OnPage(page, start, size)
    ensures i < |page.blocks| && start == page.base + page.blocks[i].offset && size == page.blocks[i].size
    decreases |page.blocks|
  {
    if start == page.base + page.blocks[0].offset && size == page.blocks[0].size {
      i := 0;
    } else {
      i := FindBlock(page.(blocks := page.blocks[1..]), start, size);
      i := i + 1;
    }
  }

  lemma {:induction false} SamePageApart(page: PageView, a: nat, aSize: nat, b: nat, bSize: nat)
    requires PageGood(page) && OnPage(page, a, aSize) && OnPage(page, b, bSize) && (a != b || aSize != bSize)
    ensures Apart(a, aSize, b, bSize)
  {
    var i := FindBlock(page, a, aSize);
    var j := FindBlock(page, b, bSize);
    assert i < j ==> End(page.blocks[i]) <= page.blocks[j].offset;
    assert j < i ==> End(page.blocks[j]) <= page.blocks[i].offset;
  }

  lemma {:induction false} BlockInPage(page: PageView, start: nat, size: nat)
    requires PageGood(page) && OnPage(page, start, size)
    ensures size > 0 && page.base <= start && start + size <= page.base + PAGE_SIZE
  {
    var i := FindBlock(page, start, size);
    assert End(page.blocks[i]) <= PAGE_SIZE;
  }

  /** Two different places on good pages. */
  lemma {:induction false} BlocksApart<N, P>(x: Index<N, P>, p: P, q: P, a: nat, aSize: nat, b: nat, bSize: nat)
    requires PagesGood(x) && p in x.pages && q in x.pages
    requires OnPage(x.pages[p], a, aSize) && OnPage(x.pages[q], b, bSize) && a != b
    ensures Apart(a, aSize, b, bSize)
  {
    if p == q {
      SamePageApart(x.pages[p], a, aSize, b, bSize);
    } else {
      BlockInPage(x.pages[p], a, aSize);
      BlockInPage(x.pages[q], b, bSize);
    }
  }

  /** Every registered object has a size. */
  lemma {:induction false} EntriesHaveSize<N, P>(x: Index<N, P>, a: nat)
    requires PagesGood(x) && EntriesPlaced(x) && LargeRegistered(x) && a in x.lookup
    ensures x.places[x.lookup[a]].size > 0
  {
    var n := x.lookup[a];
    if x.places[n].page.Some? {
      BlockInPage(x.pages[x.places[n].page.value], a, x.places[n].size);
    }
  }

  lemma {:induction false} LargeApart<N, P>(x: Index<N, P>, m: N, b: nat)
    requires PagesGood(x) && EntriesPlaced(x) && LargeRegistered(x) && m in x.large && b in x.lookup && x.lookup[b] != m
    ensures PlacesApart(x.places[m], x.places[x.lookup[b]])
  {
    var n := x.lookup[b];
    assert LargeGood(x, m);
    if x.places[n].page.Some? {
      BlockInPage(x.pages[x.places[n].page.value], b, x.places[n].size);
    }
  }

  /** Registered objects never share memory. */
  lemma {:induction false} EntriesApart<N, P>(x: Index<N, P>, a: nat, b: nat)
    requires PagesGood(x) && EntriesPlaced(x) && LargeRegistered(x) && a in x.lookup && b in x.lookup && a != b
    ensures PlacesApart(x.places[x.lookup[a]], x.places[x.lookup[b]])
  {
    var m, n := x.lookup[a], x.lookup[b];
    if x.places[m].page.None? {
      LargeApart(x, m, b);
    } else if x.places[n].page.None? {
      LargeApart(x, n, a);
    } else {
      BlocksApart(x, x.places[m].page.value, x.places[n].page.value, a, x.places[m].size, b, x.places[n].size);
    }
  }

  /**
   An address inside a registered object that starts no object is accepted by the scan for that
   object only, although the scan's upper bound is inclusive.
   */
  lemma {:induction false} OwnerIsUnique<N, P>(x: Index<N, P>, a: nat, address: nat)
    requires Agrees(x) && a in x.lookup && Inside(x.places[x.lookup[a]], address) && address !in x.lookup
    ensures forall b :: b in x.lookup && InsideOrBehind(x.places[x.lookup[b]], address) ==> b == a
  {
    forall b | b in x.lookup && InsideOrBehind(x.places[x.lookup[b]], address) ensures b == a {
      if b != a {
        EntriesApart(x, a, b);
      }
    }
  }

  /** An address at which an object starts is inside no other object. */
  lemma {:induction false} StartIsOwned<N, P>(x: Index<N, P>, a: nat, address: nat)
    requires Agrees(x) && a in x.lookup && Inside(x.places[x.lookup[a]], address) && address in x.lookup
    ensures a == address
  {
    if a != address {
      EntriesApart(x, a, address);
      EntriesHaveSize(x, address);
    }
  }

  lemma {:induction false} EntriesKnown<N, P>(x: Index<N, P>)
    requires Agrees(x)
    ensures forall a :: a in x.lookup ==> x.lookup[a] in x.places && x.places[x.lookup[a]].start == a
  {
  }

  /**
   Without the exact lookup first, a scan is certain to find the owner of an address, in
   whatever order it goes, exactly if no object ends where that address is.
   */
  lemma {:induction false} ScanIsCertainIff<N, P>(x: Index<N, P>, a: nat, address: nat)
    requires Agrees(x) && a in x.lookup && Inside(x.places[x.lookup[a]], address)
    ensures (forall b :: b in x.lookup && InsideOrBehind(x.places[x.lookup[b]], address) ==> b == a) <==>
            (forall b :: b in x.lookup ==> b + x.places[x.lookup[b]].size != address)
  {
    forall b | b in x.lookup && b != a
      ensures InsideOrBehind(x.places[x.lookup[b]], address) ==> b + x.places[x.lookup[b]].size == address
    {
      EntriesApart(x, a, b);
    }
    forall b | b in x.lookup && b + x.places[x.lookup[b]].size == address
      ensures b != a && InsideOrBehind(x.places[x.lookup[b]], address)
    {
      EntriesHaveSize(x, b);
    }
  }

  /** Two adjacent objects of 8 bytes. */
  function Adjacent(): Index<char, char> {
    Index(map['p' := PageView(0, [Block(0, 8), Block(8, 8)])], [], map[0 := 'a', 8 := 'b'],
          map['a' := Place(0, 8, Some('p')), 'b' := Place(8, 8, Some('p'))])
  }

  lemma {:induction false} AdjacentAgrees()
    ensures Agrees(Adjacent())
  {
    hide OnPage;
    var x := Adjacent();
    BlockAt(x.pages['p'], 0);
    BlockAt(x.pages['p'], 1);
    forall p, start: nat, size: nat | p in x.pages && OnPage(x.pages[p], start, size)
      ensures Registered(x, Place(start, size, Some(p)))
    {
      var i := FindBlock(x.pages[p], start, size);
      assert i == 0 || i == 1;
    }
  }

  /** At the start of the second one the scan accepts both. */
  lemma {:induction false} ScanCounterexample()
    ensures var x := Adjacent();
            && Agrees(x) && Inside(x.places[x.lookup[8]], 8)
            && InsideOrBehind(x.places[x.lookup[0]], 8) && InsideOrBehind(x.places[x.lookup[8]], 8) && x.lookup[0] != x.lookup[8]
  {
    hide Agrees;
    AdjacentAgrees();
  }

  /** The block at index `i` is registered, and what is looked up there records its place. */
  lemma {:induction false} BlockIsRegistered<N, P>(x: Index<N, P>, p: P, i: nat)
    requires BlocksRegistered(x) && p in x.pages && i < |x.pages[p].blocks|
    ensures Registered(x, Place(x.pages[p].base + x.pages[p].blocks[i].offset, x.pages[p].blocks[i].size, Some(p)))
  {
    BlockAt(x.pages[p], i);
  }

  /** The handles found for the blocks of a page, in their order. */
  function Found<N(==)>(lookup: map<nat, N>, base: nat, blocks: seq<Block>): (r: seq<N>)
    ensures forall n :: n in r ==> n in lookup.Values
  {
    if blocks == [] then []
    else (if base + blocks[0].offset in lookup then [lookup[base + blocks[0].offset]] else []) + Found(lookup, base, blocks[1..])
  }

  ghost predicate Findable<N>(lookup: map<nat, N>, base: nat, blocks: seq<Block>) {
    forall i :: 0 <= i < |blocks| ==> base + blocks[i].offset in lookup
  }

  lemma {:induction false} FindableFound<N>(lookup: map<nat, N>, base: nat, blocks: seq<Block>)
    requires Findable(lookup, base, blocks)
    ensures var r := Found(lookup, base, blocks);
            |r| == |blocks| && forall i :: 0 <= i < |blocks| ==> r[i] == lookup[base + blocks[i].offset]
    decreases |blocks|
  {
    if blocks != [] {
      FindableFound(lookup, base, blocks[1..]);
    }
  }

  lemma {:induction false} FoundLength<N>(lookup: map<nat, N>, base: nat, blocks: seq<Block>)
    requires Findable(lookup, base, blocks)
    ensures |Found(lookup, base, blocks)| == |blocks|
  {
    FindableFound(lookup, base, blocks);
  }

  lemma {:induction false} BlocksFindable<N, P>(x: Index<N, P>, p: P)
    requires BlocksRegistered(x) && p in x.pages
    ensures Findable(x.lookup, x.pages[p].base, x.pages[p].blocks)
  {
    forall i | 0 <= i < |x.pages[p].blocks| ensures x.pages[p].base + x.pages[p].blocks[i].offset in x.lookup {
      BlockIsRegistered(x, p, i);
    }
  }

  /** What a pass needs to know about the page and object it is at. */
  lemma {:induction false} AgreesOnPage<N, P>(x: Index<N, P>, p: P, i: nat)
    requires Agrees(x) && p in x.pages && i < |x.pages[p].blocks|
    ensures PageGood(x.pages[p]) && Findable(x.lookup, x.pages[p].base, x.pages[p].blocks) && EntriesPlaced(x)
    ensures Registered(x, Place(x.pages[p].base + x.pages[p].blocks[i].offset, x.pages[p].blocks[i].size, Some(p)))
  {
    BlocksFindable(x, p);
    BlockIsRegistered(x, p, i);
  }

  /** Just the handles that are not destroyed can be looked up, each at the address that it records. */
  ghost predicate Undead<N, P>(x: Index<N, P>, destroyed: set<N>) {
    && (forall a :: a in x.lookup ==> x.lookup[a] in x.places && x.lookup[a] !in destroyed)
    && (forall n :: n in x.places && n !in destroyed ==> x.places[n].start in x.lookup && x.lookup[x.places[n].start] == n)
  }

  /** So a handle is in the lookup if and only if it is not destroyed. */
  lemma {:induction false} UndeadIsLookedUp<N, P>(x: Index<N, P>, destroyed: set<N>, n: N)
    requires Undead(x, destroyed) && n in x.places
    ensures n !in destroyed <==> n in x.lookup.Values
  {
    if n in x.lookup.Values {
      var a :| a in x.lookup && x.lookup[a] == n;
    }
  }

  // ---------------------------------------------------------------- changing one block of one page

  /**
   One block of page `p` goes, one comes, or it moves: the object `n` leaves the address `old`
   and gets the place `new`, and lookup and handle follow.
   */
  ghost predicate Rebooked<N, P>(x: Index<N, P>, x': Index<N, P>, p: P, n: N, left: Option<nat>, taken: Option<Place<P>>) {
    && p in x.pages && x'.pages.Keys == x.pages.Keys && x'.large == x.large
    && x'.pages[p].base == x.pages[p].base && (forall q :: q in x.pages && q != p ==> x'.pages[q] == x.pages[q])
    && (forall start: nat, size: nat {:trigger OnPage(x'.pages[p], start, size)} {:trigger OnPage(x.pages[p], start, size)} ::
          OnPage(x'.pages[p], start, size) <==>
          (OnPage(x.pages[p], start, size) && left != Some(start)) || taken == Some(Place(start, size, Some(p))))
    && (left.Some? ==> exists size: nat :: OnPage(x.pages[p], left.value, size) && Registered(x, Place(left.value, size, Some(p))) && x.lookup[left.value] == n)
    && (left.None? ==> n !in x.places)
    && (taken.Some? ==> taken.value.page == Some(p) && taken.value.start !in x.lookup)
    && x'.lookup == (var rest := if left.Some? then x.lookup - {left.value} else x.lookup;
                     if taken.Some? then rest[taken.value.start := n] else rest)
    && x'.places == if taken.Some? then x.places[n := taken.value] else x.places
  }

  lemma {:induction false} RebookedBlocks<N, P>(x: Index<N, P>, x': Index<N, P>, p: P, n: N, left: Option<nat>, taken: Option<Place<P>>)
    requires Rebooked(x, x', p, n, left, taken) && BlocksRegistered(x)
    ensures BlocksRegistered(x')
  {
    forall q, start: nat, size: nat | q in x'.pages && OnPage(x'.pages[q], start, size)
      ensures Registered(x', Place(start, size, Some(q)))
    {
      if q != p || taken != Some(Place(start, size, Some(p))) {
        assert OnPage(x.pages[q], start, size);
        assert Registered(x, Place(start, size, Some(q)));
      }
    }
  }

  lemma {:induction false} RebookedEntries<N, P>(x: Index<N, P>, x': Index<N, P>, p: P, n: N, left: Option<nat>, taken: Option<Place<P>>)
    requires Rebooked(x, x', p, n, left, taken) && EntriesPlaced(x)
    ensures EntriesPlaced(x')
  {
    if taken.Some? {
      assert OnPage(x'.pages[p], taken.value.start, taken.value.size);
    }
    forall a | a in x.lookup && left != Some(a)
      ensures x.lookup[a] != n && Placed(x', x.lookup[a], x.places[x.lookup[a]])
    {
    }
  }

  lemma {:induction false} RebookedLarge<N, P>(x: Index<N, P>, x': Index<N, P>, p: P, n: N, left: Option<nat>, taken: Option<Place<P>>)
    requires Rebooked(x, x', p, n, left, taken) && LargeRegistered(x)
    ensures LargeRegistered(x')
  {
    forall m | m in x'.large ensures LargeGood(x', m) && x'.places[m] == x.places[m] {
      assert LargeGood(x, m);
    }
  }

  lemma {:induction false} RebookedAgrees<N, P>(x: Index<N, P>, x': Index<N, P>, p: P, n: N, left: Option<nat>, taken: Option<Place<P>>)
    requires Rebooked(x, x', p, n, left, taken) && Agrees(x) && PageGood(x'.pages[p])
    ensures Agrees(x')
  {
    RebookedBlocks(x, x', p, n, left, taken);
    RebookedEntries(x, x', p, n, left, taken);
    RebookedLarge(x, x', p, n, left, taken);
  }

  lemma {:induction false} FreeIsNoBlock(page: PageView, offset: nat, size: nat, blockSize: nat)
    requires PageGood(page) && Free(page.blocks, offset, size) && size > 0
    ensures !OnPage(page, page.base + offset, blockSize)
  {
    if OnPage(page, page.base + offset, blockSize) {
      var i := FindBlock(page, page.base + offset, blockSize);
    }
  }

  /** No registered object starts where a page has free memory. */
  lemma {:induction false} FreeIsUnregistered<N, P>(x: Index<N, P>, p: P, offset: nat, size: nat)
    requires PagesGood(x) && EntriesPlaced(x) && LargeRegistered(x)
    requires p in x.pages && Free(x.pages[p].blocks, offset, size) && size > 0
    ensures x.pages[p].base + offset !in x.lookup
  {
    forall a | a in x.lookup ensures a != x.pages[p].base + offset {
      var place := x.places[x.lookup[a]];
      if place.page.None? {
        assert LargeGood(x, x.lookup[a]);
      } else {
        BlockInPage(x.pages[place.page.value], a, place.size);
        if place.page.value == p {
          FreeIsNoBlock(x.pages[p], offset, size, place.size);
        }
      }
    }
  }

  // ---------------------------------------------------------------- a new block

  /** `RegisterObject` for a block that was just recorded on the page `p`. */
  function Register<N(==), P(==)>(x: Index<N, P>, p: P, slot: Slot, size: nat, n: N): Index<N, P>
    requires p in x.pages && slot.index <= |x.pages[p].blocks| && slot.offset + size <= PAGE_SIZE
  {
    var page := x.pages[p];
    var start := page.base + slot.offset;
    x.(pages := x.pages[p := page.(blocks := Record(page.blocks, slot, size))],
       lookup := x.lookup[start := n], places := x.places[n := Place(start, size, Some(p))])
  }

  lemma {:induction false} InsertedOnPage(page: PageView, i: nat, b: Block)
    requires i <= |page.blocks|
    ensures forall start: nat, size: nat ::
              OnPage(page.(blocks := InsertAt(page.blocks, i, b)), start, size) <==>
              OnPage(page, start, size) || (start == page.base + b.offset && size == b.size)
    decreases i
  {
    var blocks := InsertAt(page.blocks, i, b);
    if i == 0 {
      assert blocks[1..] == page.blocks;
    } else {
      InsertedOnPage(page.(blocks := page.blocks[1..]), i - 1, b);
      assert blocks[1..] == InsertAt(page.blocks[1..], i - 1, b) && blocks[0] == page.blocks[0];
    }
  }

  lemma {:induction false} RegisterRebooks<N, P>(x: Index<N, P>, p: P, slot: Slot, size: nat, n: N)
    requires p in x.pages && n !in x.places && slot.index <= |x.pages[p].blocks| && slot.offset + size <= PAGE_SIZE
    requires x.pages[p].base + slot.offset !in x.lookup
    ensures Rebooked(x, Register(x, p, slot, size, n), p, n, None, Some(Place(x.pages[p].base + slot.offset, size, Some(p))))
  {
    InsertedOnPage(x.pages[p], slot.index, Block(slot.offset, size));
  }

  lemma {:induction false} RecordIsGood(page: PageView, slot: Slot, size: nat)
    requires PageGood(page) && size > 0 && slot.index <= |page.blocks| && slot.offset + size <= PAGE_SIZE
    requires Ordered(Record(page.blocks, slot, size))
    ensures PageGood(page.(blocks := Record(page.blocks, slot, size)))
  {
  }

  /**
   Registering a recorded free block collides with no entry of the lookup and keeps the index
   in agreement.
   */
  lemma {:induction false} RegisterAgrees<N, P>(x: Index<N, P>, p: P, slot: Slot, size: nat, n: N)
    requires Agrees(x) && p in x.pages && n !in x.places && size > 0
    requires slot.index <= |x.pages[p].blocks| && Free(x.pages[p].blocks, slot.offset, size)
    requires Ordered(Record(x.pages[p].blocks, slot, size))
    ensures x.pages[p].base + slot.offset !in x.lookup
    ensures Agrees(Register(x, p, slot, size, n))
  {
    FreeIsUnregistered(x, p, slot.offset, size);
    RegisterRebooks(x, p, slot, size, n);
    RecordIsGood(x.pages[p], slot, size);
    RebookedAgrees(x, Register(x, p, slot, size, n), p, n, None, Some(Place(x.pages[p].base + slot.offset, size, Some(p))));
  }

  /** Where `TryAllocate` finds room no object is registered, and the address is aligned. */
  lemma {:induction false} RoomIsUnregistered<N, P>(x: Index<N, P>, p: P, size: nat, alignment: nat)
    requires Agrees(x) && p in x.pages && size > 0 && alignment > 0
    ensures Ordered(x.pages[p].blocks)
    ensures var r := FirstFit(x.pages[p].base, x.pages[p].blocks, size, alignment, 0);
            r.Some? ==>
              && x.pages[p].base + r.value.offset !in x.lookup && (x.pages[p].base + r.value.offset) % alignment == 0
              && Free(x.pages[p].blocks, r.value.offset, size) && Ordered(Record(x.pages[p].blocks, r.value, size))
  {
    hide BlocksRegistered, Registered, OnPage, Free;
    assert PageGood(x.pages[p]);
    var r := FirstFit(x.pages[p].base, x.pages[p].blocks, size, alignment, 0);
    FirstFitFits(x.pages[p].base, x.pages[p].blocks, size, alignment, 0);
    RecordKeepsOrder(x.pages[p].base, x.pages[p].blocks, size, alignment);
    if r.Some? {
      FreeIsUnregistered(x, p, r.value.offset, size);
    }
  }

  /** The block is recorded first, then handle and lookup follow. */
  lemma {:induction false} RegisterInSteps<N, P>(x: Index<N, P>, p: P, slot: Slot, size: nat, n: N)
    requires p in x.pages && slot.index <= |x.pages[p].blocks| && slot.offset + size <= PAGE_SIZE
    ensures var page := x.pages[p];
            Register(x, p, slot, size, n) ==
              x.(pages := x.pages[p := PageView(page.base, Record(page.blocks, slot, size))])
               .(lookup := x.lookup[page.base + slot.offset := n], places := x.places[n := Place(page.base + slot.offset, size, Some(p))])
  {
  }

  /** Registering a new object where `TryAllocate` found room. */
  lemma {:induction false} RegisterWhereRoom<N, P>(x: Index<N, P>, p: P, size: nat, alignment: nat, n: N, destroyed: set<N>)
    requires Agrees(x) && Undead(x, destroyed) && p in x.pages && n !in x.places && n !in destroyed && size > 0 && alignment > 0
    requires Ordered(x.pages[p].blocks) && FirstFit(x.pages[p].base, x.pages[p].blocks, size, alignment, 0).Some?
    ensures var slot := FirstFit(x.pages[p].base, x.pages[p].blocks, size, alignment, 0).value;
            Agrees(Register(x, p, slot, size, n)) && Undead(Register(x, p, slot, size, n), destroyed)
  {
    hide Agrees, FirstFit, Free, Ordered, Record;
    RoomIsUnregistered(x, p, size, alignment);
    RegisterAgrees(x, p, FirstFit(x.pages[p].base, x.pages[p].blocks, size, alignment, 0).value, size, n);
  }

  /** A block is recorded and no object is registered for it. */
  function RecordOnly<N, P(==)>(x: Index<N, P>, p: P, slot: Slot, size: nat): Index<N, P>
    requires p in x.pages && slot.index <= |x.pages[p].blocks| && slot.offset + size <= PAGE_SIZE
  {
    x.(pages := x.pages[p := PageView(x.pages[p].base, Record(x.pages[p].blocks, slot, size))])
  }

  lemma {:induction false} EmptyBlockDisagrees<N, P>(x: Index<N, P>, p: P, i: nat)
    requires p in x.pages && i < |x.pages[p].blocks| && x.pages[p].blocks[i].size == 0
    ensures !Agrees(x)
  {
    assert !PageGood(x.pages[p]);
  }

  lemma {:induction false} RecordedAt(blocks: seq<Block>, slot: Slot)
    requires Ordered(blocks) && slot.index <= |blocks| && PreviousEnd(blocks, slot.index) <= slot.offset <= PAGE_SIZE
    ensures slot.index < |Record(blocks, slot, 0)| && Record(blocks, slot, 0)[slot.index].size == 0
    ensures slot.index < |RecordAsWritten(blocks, slot, 0)| && RecordAsWritten(blocks, slot, 0)[slot.index].size == 0
  {
  }

  /** No object is registered for a block of size 0, wherever it lies. */
  lemma {:induction false} EmptyBlockHasNoObject<N, P>(x: Index<N, P>, p: P, start: nat)
    requires Agrees(x)
    ensures !Registered(x, Place(start, 0, Some(p)))
  {
    if start in x.lookup {
      EntriesHaveSize(x, start);
    }
  }

  /**
   A request of size 0 always finds a place. A block of size 0 is recorded there, but the span
   that is returned is empty and so no object is registered: agreement is lost, with the block
   recorded as the code does it as well as with the promised one.
   */
  lemma {:induction false} EmptyRequestDisagrees<N, P>(x: Index<N, P>, p: P, alignment: nat)
    requires PagesGood(x) && p in x.pages && alignment > 0
    requires x.pages[p].base % PAGE_ALIGNMENT == 0 && PAGE_ALIGNMENT % alignment == 0
    ensures Ordered(x.pages[p].blocks) && FirstFit(x.pages[p].base, x.pages[p].blocks, 0, alignment, 0).Some?
    ensures var slot := FirstFit(x.pages[p].base, x.pages[p].blocks, 0, alignment, 0).value;
            && !Agrees(RecordOnly(x, p, slot, 0))
            && !Agrees(x.(pages := x.pages[p := PageView(x.pages[p].base, RecordAsWritten(x.pages[p].blocks, slot, 0))]))
  {
    assert PageGood(x.pages[p]);
    hide Agrees, FirstFit, Ordered, PageGood, Record, RecordAsWritten;
    EmptyRequestFits(x.pages[p].base, x.pages[p].blocks, alignment);
    var slot := FirstFit(x.pages[p].base, x.pages[p].blocks, 0, alignment, 0).value;
    RecordedAt(x.pages[p].blocks, slot);
    EmptyBlockDisagrees(RecordOnly(x, p, slot, 0), p, slot.index);
    EmptyBlockDisagrees(x.(pages := x.pages[p := PageView(x.pages[p].base, RecordAsWritten(x.pages[p].blocks, slot, 0))]), p, slot.index);
  }

  /** In particular a block is on the page then that no object has. */
  lemma {:induction false} EmptyRequestLeavesBlock<N, P>(x: Index<N, P>, p: P, alignment: nat)
    requires Agrees(x) && p in x.pages && alignment > 0
    requires x.pages[p].base % PAGE_ALIGNMENT == 0 && PAGE_ALIGNMENT % alignment == 0
    ensures Ordered(x.pages[p].blocks) && FirstFit(x.pages[p].base, x.pages[p].blocks, 0, alignment, 0).Some?
    ensures var slot := FirstFit(x.pages[p].base, x.pages[p].blocks, 0, alignment, 0).value;
            && !BlocksRegistered(RecordOnly(x, p, slot, 0))
            && !BlocksRegistered(x.(pages := x.pages[p := PageView(x.pages[p].base, RecordAsWritten(x.pages[p].blocks, slot, 0))]))
  {
    EmptyRequestDisagrees(x, p, alignment);
    hide Agrees, FirstFit, Ordered, PageGood, Record, RecordAsWritten, BlocksRegistered, Registered;
    var slot := FirstFit(x.pages[p].base, x.pages[p].blocks, 0, alignment, 0).value;
    RecordedAt(x.pages[p].blocks, slot);
    EmptyBlockIsUnregistered(x, RecordOnly(x, p, slot, 0), p, slot.index);
    EmptyBlockIsUnregistered(x, x.(pages := x.pages[p := PageView(x.pages[p].base, RecordAsWritten(x.pages[p].blocks, slot, 0))]), p, slot.index);
  }

  lemma {:induction false} EmptyBlockIsUnregistered<N, P>(x: Index<N, P>, x': Index<N, P>, p: P, i: nat)
    requires Agrees(x) && x'.lookup == x.lookup && x'.places == x.places
    requires p in x'.pages && i < |x'.pages[p].blocks| && x'.pages[p].blocks[i].size == 0
    ensures !BlocksRegistered(x')
  {
    hide Agrees;
    var start := x'.pages[p].base + x'.pages[p].blocks[i].offset;
    EmptyBlockHasNoObject(x, p, start);
    BlockAt(x'.pages[p], i);
  }

  /** `RegisterObject` after the block was recorded as the code does it. */
  function RegisterAsWritten<N(==), P(==)>(x: Index<N, P>, p: P, slot: Slot, size: nat, n: N): Index<N, P>
    requires p in x.pages && Ordered(x.pages[p].blocks) && slot.index <= |x.pages[p].blocks|
    requires PreviousEnd(x.pages[p].blocks, slot.index) <= slot.offset && slot.offset + size <= PAGE_SIZE
  {
    var page := x.pages[p];
    var start := page.base + slot.offset;
    x.(pages := x.pages[p := page.(blocks := RecordAsWritten(page.blocks, slot, size))],
       lookup := x.lookup[start := n], places := x.places[n := Place(start, size, Some(p))])
  }

  /** With the block recorded as the code does it, agreement survives exactly if no gap on the page has room for it. */
  lemma {:induction false} AsWrittenAgreesIffNoGapFits<N, P>(x: Index<N, P>, p: P, size: nat, alignment: nat, n: N)
    requires Agrees(x) && p in x.pages && n !in x.places && size > 0 && alignment > 0
    requires PageGood(x.pages[p]) && FirstFit(x.pages[p].base, x.pages[p].blocks, size, alignment, 0).Some?
    ensures var slot := FirstFit(x.pages[p].base, x.pages[p].blocks, size, alignment, 0).value;
            Agrees(RegisterAsWritten(x, p, slot, size, n)) <==> NoGapFits(x.pages[p].base, x.pages[p].blocks, size, alignment)
  {
    var page := x.pages[p];
    var slot := FirstFit(page.base, page.blocks, size, alignment, 0).value;
    hide NoGapFits;
    AppendedIffNoGapFits(page.base, page.blocks, size, alignment);
    RecordedRightIffNoGapFits(page.base, page.blocks, size, alignment);
    var x' := RegisterAsWritten(x, p, slot, size, n);
    if slot.index == |page.blocks| {
      FirstFitFits(page.base, page.blocks, size, alignment, 0);
      RegisterAgrees(x, p, slot, size, n);
      assert x' == Register(x, p, slot, size, n);
    } else {
      assert !PageGood(x'.pages[p]);
    }
  }

  /**
   After an object was placed in a gap by the code as written, the same request is promised the
   address of that object, for which there is an entry in the lookup.
   */
  lemma {:induction false} GapIsTakenTwice<N, P>(x: Index<N, P>, p: P, size: nat, alignment: nat, n: N)
    requires PagesGood(x) && p in x.pages && alignment > 0 && size + alignment <= SIZE_T_MODULUS
    requires !NoGapFits(x.pages[p].base, x.pages[p].blocks, size, alignment)
    ensures Ordered(x.pages[p].blocks) && FirstFit(x.pages[p].base, x.pages[p].blocks, size, alignment, 0).Some?
    ensures var x' := RegisterAsWritten(x, p, FirstFit(x.pages[p].base, x.pages[p].blocks, size, alignment, 0).value, size, n);
            var again := Scan(x'.pages[p].base, x'.pages[p].blocks, size, alignment, 0);
            again.Some? && x'.pages[p].base + again.value.offset in x'.lookup && x'.lookup[x'.pages[p].base + again.value.offset] == n
  {
    assert PageGood(x.pages[p]);
    hide NoGapFits, FirstFit, Scan, RecordAsWritten, Ordered;
    GapIsPromisedTwice(x.pages[p].base, x.pages[p].blocks, size, alignment);
  }

  // ---------------------------------------------------------------- a moved block

  /** `unordered_map::insert`: an existing entry is left alone. */
  function Insert<N>(lookup: map<nat, N>, address: nat, n: N): map<nat, N> {
    if address in lookup then lookup else lookup[address := n]
  }

  /** `RelocateObject`: erase the old address, insert the new one, update handle and block. */
  function Relocate<N(==), P(==)>(x: Index<N, P>, p: P, i: nat, offset: uint16): Index<N, P>
    requires p in x.pages && i < |x.pages[p].blocks| && x.pages[p].base + x.pages[p].blocks[i].offset in x.lookup
  {
    var page := x.pages[p];
    var b, start := page.blocks[i], page.base + page.blocks[i].offset;
    var n := x.lookup[start];
    x.(pages := x.pages[p := page.(blocks := page.blocks[i := Block(offset, b.size)])],
       lookup := Insert(x.lookup - {start}, page.base + offset, n),
       places := x.places[n := Place(page.base + offset, b.size, Some(p))])
  }

  /** Block and handle move, the lookup does not. */
  function MovePlace<N(==), P(==)>(x: Index<N, P>, p: P, i: nat, n: N, b: Block): Index<N, P>
    requires p in x.pages && i < |x.pages[p].blocks|
  {
    var page := x.pages[p];
    x.(pages := x.pages[p := page.(blocks := page.blocks[i := b])], places := x.places[n := Place(page.base + b.offset, b.size, Some(p))])
  }

  lemma {:induction false} RelocateInSteps<N, P>(x: Index<N, P>, p: P, i: nat, offset: uint16)
    requires p in x.pages && i < |x.pages[p].blocks| && x.pages[p].base + x.pages[p].blocks[i].offset in x.lookup
    ensures var start := x.pages[p].base + x.pages[p].blocks[i].offset;
            var n := x.lookup[start];
            Relocate(x, p, i, offset) ==
              MovePlace(x.(lookup := Insert(x.lookup - {start}, x.pages[p].base + offset, n)), p, i, n, Block(offset, x.pages[p].blocks[i].size))
  {
  }

  lemma {:induction false} RelocatedLookup<N, P>(x: Index<N, P>, p: P, i: nat, offset: uint16)
    requires p in x.pages && i < |x.pages[p].blocks| && x.pages[p].base + x.pages[p].blocks[i].offset in x.lookup
    ensures var start := x.pages[p].base + x.pages[p].blocks[i].offset;
            Relocate(x, p, i, offset).lookup == Insert(x.lookup - {start}, x.pages[p].base + offset, x.lookup[start])
  {
  }

  /** A lower offset for block `i` that stays behind its predecessor. */
  ghost predicate SlidesTo(blocks: seq<Block>, i: nat, offset: nat) {
    i < |blocks| && PreviousEnd(blocks, i) <= offset < blocks[i].offset
  }

  function Slid(page: PageView, i: nat, offset: uint16): PageView
    requires i < |page.blocks|
  {
    page.(blocks := page.blocks[i := Block(offset, page.blocks[i].size)])
  }

  lemma {:induction false} SlideKeepsPage(page: PageView, i: nat, offset: uint16)
    requires PageGood(page) && SlidesTo(page.blocks, i, offset)
    ensures PageGood(Slid(page, i, offset))
    ensures Free(page.blocks, offset, page.blocks[i].offset - offset)
  {
    var blocks := page.blocks;
    forall k | 0 <= k < i ensures End(blocks[k]) <= offset {
      assert k < i - 1 ==> End(blocks[k]) <= blocks[i - 1].offset;
    }
    assert End(blocks[i]) <= PAGE_SIZE;
  }

  /** On a good page no two blocks start at the same address. */
  lemma {:induction false} StartsDiffer(page: PageView, i: nat, j: nat)
    requires PageGood(page) && i < |page.blocks| && j < |page.blocks| && i != j
    ensures page.blocks[i].offset != page.blocks[j].offset
  {
    assert i < j ==> End(page.blocks[i]) <= page.blocks[j].offset;
    assert j < i ==> End(page.blocks[j]) <= page.blocks[i].offset;
  }

  lemma {:induction false} SlidBlock(page: PageView, i: nat, offset: uint16, start: nat, size: nat)
    requires PageGood(page) && SlidesTo(page.blocks, i, offset)
    ensures OnPage(Slid(page, i, offset), start, size) <==>
            (OnPage(page, start, size) && start != page.base + page.blocks[i].offset)
            || (start == page.base + offset && size == page.blocks[i].size)
  {
    hide OnPage, PageGood, Ordered;
    var slid := Slid(page, i, offset);
    if OnPage(slid, start, size) {
      var j := FindBlock(slid, start, size);
      if j != i {
        BlockAt(page, j);
        StartsDiffer(page, i, j);
      }
    }
    if start == page.base + offset && size == page.blocks[i].size {
      BlockAt(slid, i);
    }
    if OnPage(page, start, size) && start != page.base + page.blocks[i].offset {
      var j := FindBlock(page, start, size);
      assert j != i;
      BlockAt(slid, j);
    }
  }

  lemma {:induction false} SlidOnPage(page: PageView, i: nat, offset: uint16)
    requires PageGood(page) && SlidesTo(page.blocks, i, offset)
    ensures forall start: nat, size: nat ::
              OnPage(Slid(page, i, offset), start, size) <==>
              (OnPage(page, start, size) && start != page.base + page.blocks[i].offset)
              || (start == page.base + offset && size == page.blocks[i].size)
  {
    hide OnPage, PageGood;
    forall start: nat, size: nat
      ensures OnPage(Slid(page, i, offset), start, size) <==>
              (OnPage(page, start, size) && start != page.base + page.blocks[i].offset)
              || (start == page.base + offset && size == page.blocks[i].size)
    {
      SlidBlock(page, i, offset, start, size);
    }
  }

  lemma {:induction false} RelocateRebooks<N, P>(x: Index<N, P>, p: P, i: nat, offset: uint16)
    requires p in x.pages && PageGood(x.pages[p]) && SlidesTo(x.pages[p].blocks, i, offset)
    requires Registered(x, Place(x.pages[p].base + x.pages[p].blocks[i].offset, x.pages[p].blocks[i].size, Some(p)))
    requires x.pages[p].base + offset !in x.lookup
    ensures var start, place := x.pages[p].base + x.pages[p].blocks[i].offset, Place(x.pages[p].base + offset, x.pages[p].blocks[i].size, Some(p));
            Rebooked(x, Relocate(x, p, i, offset), p, x.lookup[start], Some(start), Some(place))
  {
    hide OnPage, PageGood;
    SlidOnPage(x.pages[p], i, offset);
    BlockAt(x.pages[p], i);
    assert Relocate(x, p, i, offset).pages[p] == Slid(x.pages[p], i, offset);
  }

  /** Sliding a block down collides with no entry of the lookup and keeps the index in agreement. */
  lemma {:induction false} RelocateAgrees<N, P>(x: Index<N, P>, p: P, i: nat, offset: uint16)
    requires Agrees(x) && p in x.pages && SlidesTo(x.pages[p].blocks, i, offset)
    ensures x.pages[p].base + offset !in x.lookup
    ensures x.pages[p].base + x.pages[p].blocks[i].offset in x.lookup && Agrees(Relocate(x, p, i, offset))
  {
    var start := x.pages[p].base + x.pages[p].blocks[i].offset;
    SlideKeepsPage(x.pages[p], i, offset);
    FreeIsUnregistered(x, p, offset, x.pages[p].blocks[i].offset - offset);
    BlockAt(x.pages[p], i);
    RelocateRebooks(x, p, i, offset);
    RebookedAgrees(x, Relocate(x, p, i, offset), p, x.lookup[start], Some(start),
                   Some(Place(x.pages[p].base + offset, x.pages[p].blocks[i].size, Some(p))));
  }

  lemma {:induction false} RelocateFound<N, P>(x: Index<N, P>, p: P, i: nat, offset: uint16)
    requires p in x.pages && PageGood(x.pages[p]) && i < |x.pages[p].blocks|
    requires Findable(x.lookup, x.pages[p].base, x.pages[p].blocks) && x.pages[p].base + offset !in x.lookup
    ensures var x' := Relocate(x, p, i, offset);
            Found(x'.lookup, x'.pages[p].base, x'.pages[p].blocks) == Found(x.lookup, x.pages[p].base, x.pages[p].blocks)
  {
    var x' := Relocate(x, p, i, offset);
    var base, blocks, blocks' := x.pages[p].base, x.pages[p].blocks, x'.pages[p].blocks;
    forall j | 0 <= j < |blocks'|
      ensures base + blocks'[j].offset in x'.lookup && x'.lookup[base + blocks'[j].offset] == x.lookup[base + blocks[j].offset]
    {
      if j != i {
        StartsDiffer(x.pages[p], i, j);
      }
    }
    FindableFound(x.lookup, base, blocks);
    FindableFound(x'.lookup, base, blocks');
  }

  lemma {:induction false} RelocateKeepsUndead<N, P>(x: Index<N, P>, p: P, i: nat, offset: uint16, destroyed: set<N>)
    requires p in x.pages && i < |x.pages[p].blocks| && Undead(x, destroyed)
    requires x.pages[p].base + x.pages[p].blocks[i].offset in x.lookup && x.pages[p].base + offset !in x.lookup
    ensures Undead(Relocate(x, p, i, offset), destroyed)
  {
  }

  /** Sliding the block `i` down, as the compaction of its page needs it. */
  lemma {:induction false} RelocateDuringCompaction<N, P>(x: Index<N, P>, p: P, i: nat, offset: uint16, destroyed: set<N>)
    requires Agrees(x) && Undead(x, destroyed) && p in x.pages && SlidesTo(x.pages[p].blocks, i, offset)
    ensures x.pages[p].base + offset !in x.lookup && x.pages[p].base + x.pages[p].blocks[i].offset in x.lookup
    ensures var x' := Relocate(x, p, i, offset);
            && Agrees(x') && Undead(x', destroyed)
            && Found(x'.lookup, x'.pages[p].base, x'.pages[p].blocks) == Found(x.lookup, x.pages[p].base, x.pages[p].blocks)
  {
    hide Agrees, Undead, Found, Relocate, Findable, PageGood, EntriesPlaced, Registered;
    AgreesOnPage(x, p, i);
    RelocateAgrees(x, p, i, offset);
    RelocateKeepsUndead(x, p, i, offset, destroyed);
    RelocateFound(x, p, i, offset);
  }

  // ---------------------------------------------------------------- a destroyed object

  /** `DestroyObject` as far as addresses go: the lookup entry and the recorded block disappear. */
  function Unregister<N, P(==)>(x: Index<N, P>, p: P, b: Block): Index<N, P>
    requires p in x.pages
  {
    var page := x.pages[p];
    x.(pages := x.pages[p := page.(blocks := Remove(page.blocks, b))], lookup := x.lookup - {page.base + b.offset})
  }

  function Erased(page: PageView, i: nat): PageView
    requires i < |page.blocks|
  {
    page.(blocks := page.blocks[..i] + page.blocks[i + 1..])
  }

  lemma {:induction false} ErasedIsGood(page: PageView, i: nat)
    requires PageGood(page) && i < |page.blocks|
    ensures PageGood(Erased(page, i))
  {
    var blocks := Erased(page, i).blocks;
    assert forall j :: 0 <= j < i ==> blocks[j] == page.blocks[j];
    assert forall j :: i <= j < |blocks| ==> blocks[j] == page.blocks[j + 1];
  }

  lemma {:induction false} RemoveFromGoodPage(page: PageView, i: nat)
    requires PageGood(page) && i < |page.blocks|
    ensures page.(blocks := Remove(page.blocks, page.blocks[i])) == Erased(page, i)
  {
    forall j | 0 <= j < i ensures page.blocks[j] != page.blocks[i] {
      StartsDiffer(page, i, j);
    }
    RemoveErases(page.blocks, i);
  }

  lemma {:induction false} ErasedLacks(page: PageView, i: nat, start: nat, size: nat)
    requires PageGood(page) && i < |page.blocks| && OnPage(Erased(page, i), start, size)
    ensures start != page.base + page.blocks[i].offset
  {
    var j := FindBlock(Erased(page, i), start, size);
    StartsDiffer(page, i, if j < i then j else j + 1);
  }

  lemma {:induction false} RemovedOnPage(page: PageView, i: nat)
    requires PageGood(page) && i < |page.blocks|
    ensures forall start: nat, size: nat ::
              OnPage(page.(blocks := Remove(page.blocks, page.blocks[i])), start, size) <==>
              OnPage(page, start, size) && start != page.base + page.blocks[i].offset
  {
    RemoveFromGoodPage(page, i);
    var b, erased := page.blocks[i], Erased(page, i);
    assert InsertAt(erased.blocks, i, b) == page.blocks;
    assert erased.(blocks := page.blocks) == page;
    InsertedOnPage(erased, i, b);
    forall start: nat, size: nat | OnPage(erased, start, size) ensures start != page.base + b.offset {
      ErasedLacks(page, i, start, size);
    }
  }

  lemma {:induction false} UnregisterRebooks<N, P>(x: Index<N, P>, p: P, i: nat)
    requires p in x.pages && PageGood(x.pages[p]) && i < |x.pages[p].blocks|
    requires Registered(x, Place(x.pages[p].base + x.pages[p].blocks[i].offset, x.pages[p].blocks[i].size, Some(p)))
    ensures var start := x.pages[p].base + x.pages[p].blocks[i].offset;
            Rebooked(x, Unregister(x, p, x.pages[p].blocks[i]), p, x.lookup[start], Some(start), None)
  {
    RemovedOnPage(x.pages[p], i);
    BlockAt(x.pages[p], i);
  }

  lemma {:induction false} UnregisterKeepsPage<N, P>(x: Index<N, P>, p: P, i: nat)
    requires p in x.pages && PageGood(x.pages[p]) && i < |x.pages[p].blocks|
    ensures Unregister(x, p, x.pages[p].blocks[i]).pages[p] == Erased(x.pages[p], i)
    ensures PageGood(Unregister(x, p, x.pages[p].blocks[i]).pages[p])
  {
    RemoveFromGoodPage(x.pages[p], i);
    ErasedIsGood(x.pages[p], i);
  }

  /** Destroying the object of block `i` finds its lookup entry and keeps the index in agreement. */
  lemma {:induction false} UnregisterAgrees<N, P>(x: Index<N, P>, p: P, i: nat)
    requires Agrees(x) && p in x.pages && i < |x.pages[p].blocks|
    ensures Registered(x, Place(x.pages[p].base + x.pages[p].blocks[i].offset, x.pages[p].blocks[i].size, Some(p)))
    ensures Agrees(Unregister(x, p, x.pages[p].blocks[i]))
  {
    hide Agrees, OnPage, Rebooked, PageGood, Ordered, Unregister, Remove, Erased;
    AgreesOnPage(x, p, i);
    var start := x.pages[p].base + x.pages[p].blocks[i].offset;
    UnregisterRebooks(x, p, i);
    UnregisterKeepsPage(x, p, i);
    RebookedAgrees(x, Unregister(x, p, x.pages[p].blocks[i]), p, x.lookup[start], Some(start), None);
  }

  lemma {:induction false} ErasedFindable<N>(lookup: map<nat, N>, page: PageView, i: nat)
    requires PageGood(page) && i < |page.blocks| && Findable(lookup, page.base, page.blocks)
    ensures Findable(lookup - {page.base + page.blocks[i].offset}, page.base, Erased(page, i).blocks)
  {
    var erased := Erased(page, i).blocks;
    forall j | 0 <= j < |erased| ensures page.base + erased[j].offset in lookup - {page.base + page.blocks[i].offset} {
      var k := if j < i then j else j + 1;
      assert erased[j] == page.blocks[k];
      StartsDiffer(page, i, k);
    }
  }

  /** Of the objects on the page, just that one is gone. */
  lemma {:induction false} ErasedFound<N>(lookup: map<nat, N>, page: PageView, i: nat)
    requires i < |page.blocks| && Findable(lookup, page.base, page.blocks)
    requires Findable(lookup - {page.base + page.blocks[i].offset}, page.base, Erased(page, i).blocks)
    ensures var rest, on := lookup - {page.base + page.blocks[i].offset}, Found(lookup, page.base, page.blocks);
            |on| == |page.blocks| && Found(rest, page.base, Erased(page, i).blocks) == on[..i] + on[i + 1..]
  {
    var rest, erased := lookup - {page.base + page.blocks[i].offset}, Erased(page, i).blocks;
    FindableFound(lookup, page.base, page.blocks);
    FindableFound(rest, page.base, erased);
    var on, r := Found(lookup, page.base, page.blocks), Found(rest, page.base, erased);
    forall j | 0 <= j < |r| ensures r[j] == on[if j < i then j else j + 1] {
      assert erased[j] == page.blocks[if j < i then j else j + 1];
    }
  }

  lemma {:induction false} UnregisterFound<N, P>(x: Index<N, P>, p: P, i: nat)
    requires p in x.pages && PageGood(x.pages[p]) && i < |x.pages[p].blocks|
    requires Findable(x.lookup, x.pages[p].base, x.pages[p].blocks)
    ensures var x' := Unregister(x, p, x.pages[p].blocks[i]);
            var on := Found(x.lookup, x.pages[p].base, x.pages[p].blocks);
            |on| == |x.pages[p].blocks| && Found(x'.lookup, x'.pages[p].base, x'.pages[p].blocks) == on[..i] + on[i + 1..]
  {
    ErasedFindable(x.lookup, x.pages[p], i);
    ErasedFound(x.lookup, x.pages[p], i);
    RemoveFromGoodPage(x.pages[p], i);
  }

  /** Nothing leads to the destroyed object any more. */
  lemma {:induction false} UnregisterForgets<N, P>(x: Index<N, P>, p: P, b: Block, destroyed: set<N>)
    requires p in x.pages && x.pages[p].base + b.offset in x.lookup && EntriesPlaced(x) && Undead(x, destroyed)
    ensures Undead(Unregister(x, p, b), destroyed + {x.lookup[x.pages[p].base + b.offset]})
  {
    forall a | a in x.lookup && a != x.pages[p].base + b.offset
      ensures x.lookup[a] != x.lookup[x.pages[p].base + b.offset]
    {
      assert x.places[x.lookup[a]].start == a;
    }
  }

  lemma {:induction false} FoundOnPage<N, P>(x: Index<N, P>, p: P)
    requires Agrees(x) && p in x.pages
    ensures var r := Found(x.lookup, x.pages[p].base, x.pages[p].blocks);
            && Findable(x.lookup, x.pages[p].base, x.pages[p].blocks) && |r| == |x.pages[p].blocks|
            && forall i :: 0 <= i < |r| ==> r[i] == x.lookup[x.pages[p].base + x.pages[p].blocks[i].offset]
  {
    hide EntriesPlaced, LargeRegistered, PagesGood, OnPage, Registered;
    BlocksFindable(x, p);
    FindableFound(x.lookup, x.pages[p].base, x.pages[p].blocks);
  }

  /** A lookup that differs at addresses of other pages only. */
  lemma {:induction false} ErasedElsewhere<N, P>(x: Index<N, P>, q: P, address: nat, lookup: map<nat, N>)
    requires BlocksRegistered(x) && q in x.pages
    requires address in x.lookup && x.lookup[address] in x.places && x.places[x.lookup[address]].page != Some(q)
    requires forall a :: a in x.lookup && a != address ==> a in lookup && lookup[a] == x.lookup[a]
    ensures Found(lookup, x.pages[q].base, x.pages[q].blocks) == Found(x.lookup, x.pages[q].base, x.pages[q].blocks)
  {
    hide OnPage;
    var base, blocks := x.pages[q].base, x.pages[q].blocks;
    forall j | 0 <= j < |blocks|
      ensures base + blocks[j].offset in x.lookup && base + blocks[j].offset in lookup
           && lookup[base + blocks[j].offset] == x.lookup[base + blocks[j].offset]
    {
      BlockIsRegistered(x, q, j);
    }
    FindableFound(x.lookup, base, blocks);
    FindableFound(lookup, base, blocks);
  }

  /** `x'` differs from `x` on the page `p` and at lookup entries of that page, `start` among them, only. */
  ghost predicate OnlyPage<N, P>(x: Index<N, P>, x': Index<N, P>, p: P, start: nat) {
    && start in x.lookup && x.lookup[start] in x.places && x.places[x.lookup[start]].page == Some(p)
    && (forall a :: a in x.lookup && a != start ==> a in x'.lookup && x'.lookup[a] == x.lookup[a])
    && (forall q :: q in x.pages && q != p ==> q in x'.pages && x'.pages[q] == x.pages[q])
    && x'.lookup.Values <= x.lookup.Values
  }

  /** Then the other pages hold what they held, and no object is new. */
  ghost predicate SameElsewhere<N, P>(x: Index<N, P>, x': Index<N, P>, p: P) {
    && x'.lookup.Values <= x.lookup.Values
    && forall q :: q in x.pages && q != p ==>
         q in x'.pages && Found(x'.lookup, x'.pages[q].base, x'.pages[q].blocks) == Found(x.lookup, x.pages[q].base, x.pages[q].blocks)
  }

  lemma {:induction false} SameAsBefore<N, P>(x: Index<N, P>, p: P)
    ensures SameElsewhere(x, x, p)
  {
  }

  lemma {:induction false} SameElsewhereSteps<N, P>(x: Index<N, P>, x': Index<N, P>, x'': Index<N, P>, p: P)
    requires SameElsewhere(x, x', p) && SameElsewhere(x', x'', p)
    ensures SameElsewhere(x, x'', p)
  {
    hide Found;
  }

  lemma {:induction false} OnlyPageSameElsewhere<N, P>(x: Index<N, P>, x': Index<N, P>, p: P, start: nat)
    requires BlocksRegistered(x) && OnlyPage(x, x', p, start)
    ensures SameElsewhere(x, x', p)
  {
    hide BlocksRegistered, Found;
    forall q | q in x.pages && q != p
      ensures Found(x'.lookup, x.pages[q].base, x.pages[q].blocks) == Found(x.lookup, x.pages[q].base, x.pages[q].blocks)
    {
      ErasedElsewhere(x, q, start, x'.lookup);
    }
  }

  lemma {:induction false} UnregisterElsewhere<N, P>(x: Index<N, P>, p: P, i: nat)
    requires Agrees(x) && p in x.pages && i < |x.pages[p].blocks|
    ensures SameElsewhere(x, Unregister(x, p, x.pages[p].blocks[i]), p)
  {
    BlockIsRegistered(x, p, i);
    var start := x.pages[p].base + x.pages[p].blocks[i].offset;
    var x' := Unregister(x, p, x.pages[p].blocks[i]);
    assert OnlyPage(x, x', p, start) by {
      hide BlocksRegistered, EntriesPlaced, LargeRegistered, PagesGood;
    }
    hide OnlyPage, SameElsewhere;
    OnlyPageSameElsewhere(x, x', p, start);
  }

  /** The objects on a page, in order. */
  ghost function ListOf<N, P>(x: Index<N, P>, p: P): seq<N> {
    if p in x.pages then Found(x.lookup, x.pages[p].base, x.pages[p].blocks) else []
  }

  ghost function Lists<N, P>(x: Index<N, P>, pages: seq<P>): (r: seq<seq<N>>)
    ensures |r| == |pages| && forall k :: 0 <= k < |pages| ==> r[k] == ListOf(x, pages[k])
  {
    seq(|pages|, k requires 0 <= k < |pages| => ListOf(x, pages[k]))
  }

  lemma {:induction false} ListsElsewhere<N, P>(x: Index<N, P>, x': Index<N, P>, pages: seq<P>, i: nat)
    requires i < |pages| && SameElsewhere(x, x', pages[i]) && Distinct(pages) && forall k :: 0 <= k < |pages| ==> pages[k] in x.pages
    ensures Lists(x', pages) == Lists(x, pages)[i := ListOf(x', pages[i])]
  {
    hide Found;
    forall k | 0 <= k < |pages| && k != i ensures ListOf(x', pages[k]) == ListOf(x, pages[k]) {
      assert pages[k] != pages[i];
    }
  }

  /** No object lies on two pages or twice on one. */
  lemma {:induction false} ListsApart<N, P>(x: Index<N, P>, pages: seq<P>)
    requires Agrees(x) && Distinct(pages) && forall k :: 0 <= k < |pages| ==> pages[k] in x.pages
    ensures forall i :: 0 <= i < |pages| ==> Distinct(Lists(x, pages)[i])
    ensures forall i, n :: 0 <= i < |pages| && n in Lists(x, pages)[i] ==> n in x.lookup.Values
    ensures forall i, j, n :: 0 <= i < |pages| && 0 <= j < |pages| && n in Lists(x, pages)[i] && n in Lists(x, pages)[j] ==> i == j
  {
    hide Agrees, Found, Distinct;
    forall i | 0 <= i < |pages| ensures Distinct(Lists(x, pages)[i]) {
      FoundIsDistinct(x, pages[i]);
    }
    forall i, n | 0 <= i < |pages| && n in Lists(x, pages)[i]
      ensures n in x.lookup.Values && n in x.places && x.places[n].page == Some(pages[i])
    {
      ListedOn(x, pages[i], n);
    }
    PagesDiffer(pages);
  }

  lemma {:induction false} PagesDiffer<P>(pages: seq<P>)
    requires Distinct(pages)
    ensures forall i, j :: 0 <= i < |pages| && 0 <= j < |pages| && pages[i] == pages[j] ==> i == j
  {
  }

  lemma {:induction false} ListedOn<N, P>(x: Index<N, P>, p: P, n: N)
    requires Agrees(x) && p in x.pages && n in ListOf(x, p)
    ensures n in x.lookup.Values && n in x.places && x.places[n].page == Some(p)
  {
    hide Agrees, Found, EntriesPlaced, PageGood, Findable;
    FoundOnPage(x, p);
    var i :| 0 <= i < |ListOf(x, p)| && ListOf(x, p)[i] == n;
    AgreesOnPage(x, p, i);
  }

  /** An object that is looked up is listed on the page that it records. */
  lemma {:induction false} PlacedIsListed<N, P>(x: Index<N, P>, n: N, p: P)
    requires Agrees(x) && n in x.lookup.Values && n in x.places && x.places[n].page == Some(p)
    ensures p in x.pages && n in ListOf(x, p)
  {
    hide BlocksRegistered, LargeRegistered, PagesGood;
    var a :| a in x.lookup && x.lookup[a] == n;
    assert Placed(x, n, x.places[n]);
    var i := FindBlock(x.pages[p], a, x.places[n].size);
    FoundOnPage(x, p);
  }

  /** What a turn of a pass leaves alone. */
  lemma {:induction false} TurnElsewhere<N, P>(x: Index<N, P>, x': Index<N, P>, p: P, i: nat, destroyed: bool)
    requires Agrees(x) && p in x.pages && i < |x.pages[p].blocks|
    requires x' == if destroyed then Unregister(x, p, x.pages[p].blocks[i]) else x
    ensures SameElsewhere(x, x', p)
  {
    hide Agrees, Unregister, SameElsewhere;
    if destroyed {
      UnregisterElsewhere(x, p, i);
    } else {
      SameAsBefore(x, p);
    }
  }

  lemma {:induction false} AgreesBooks<N, P>(x: Index<N, P>)
    requires Agrees(x)
    ensures BlocksRegistered(x)
  {
  }

  lemma {:induction false} RelocateElsewhere<N, P>(x: Index<N, P>, p: P, i: nat, offset: uint16)
    requires Agrees(x) && p in x.pages && SlidesTo(x.pages[p].blocks, i, offset)
    ensures x.pages[p].base + x.pages[p].blocks[i].offset in x.lookup
    ensures SameElsewhere(x, Relocate(x, p, i, offset), p)
  {
    hide *;
    AgreesBooks(x);
    RelocateAgrees(x, p, i, offset);
    RelocateIsOnlyPage(x, p, i, offset);
    OnlyPageSameElsewhere(x, Relocate(x, p, i, offset), p, x.pages[p].base + x.pages[p].blocks[i].offset);
  }

  lemma {:induction false} RelocateIsOnlyPage<N, P>(x: Index<N, P>, p: P, i: nat, offset: uint16)
    requires BlocksRegistered(x) && p in x.pages && SlidesTo(x.pages[p].blocks, i, offset) && x.pages[p].base + offset !in x.lookup
    ensures i < |x.pages[p].blocks| && x.pages[p].base + x.pages[p].blocks[i].offset in x.lookup
    ensures OnlyPage(x, Relocate(x, p, i, offset), p, x.pages[p].base + x.pages[p].blocks[i].offset)
  {
    BlockIsRegistered(x, p, i);
    hide BlocksRegistered;
  }

  /** Destroying the object of block `i`, as the pass over its page needs it. */
  lemma {:induction false} UnregisterDuringPass<N, P>(x: Index<N, P>, p: P, i: nat, n: N, destroyed: set<N>)
    requires Agrees(x) && Undead(x, destroyed) && p in x.pages && i < |x.pages[p].blocks|
    requires x.pages[p].base + x.pages[p].blocks[i].offset in x.lookup && x.lookup[x.pages[p].base + x.pages[p].blocks[i].offset] == n
    ensures var x' := Unregister(x, p, x.pages[p].blocks[i]);
            var on := Found(x.lookup, x.pages[p].base, x.pages[p].blocks);
            && Agrees(x') && Undead(x', destroyed + {n}) && |on| == |x.pages[p].blocks|
            && Found(x'.lookup, x'.pages[p].base, x'.pages[p].blocks) == on[..i] + on[i + 1..]
  {
    hide *;
    AgreesOnPage(x, p, i);
    UnregisterAgrees(x, p, i);
    UnregisterForgets(x, p, x.pages[p].blocks[i], destroyed);
    UnregisterFound(x, p, i);
  }

  // ---------------------------------------------------------------- pages and large objects

  /** `NewPage`: the allocator hands out memory that nothing else uses. */
  function AddPage<N, P(==)>(x: Index<N, P>, p: P, base: nat): Index<N, P> {
    x.(pages := x.pages[p := PageView(base, [])])
  }

  ghost predicate FreshMemory<N, P>(x: Index<N, P>, start: nat, size: nat) {
    && (forall p :: p in x.pages ==> Apart(start, size, x.pages[p].base, PAGE_SIZE))
    && (forall n :: n in x.large && n in x.places ==> Apart(x.places[n].start, x.places[n].size, start, size))
  }

  lemma {:induction false} AddPageRegisters<N, P>(x: Index<N, P>, p: P, base: nat)
    requires BlocksRegistered(x) && EntriesPlaced(x) && p !in x.pages
    ensures BlocksRegistered(AddPage(x, p, base)) && EntriesPlaced(AddPage(x, p, base))
  {
    var x' := AddPage(x, p, base);
    forall q, start: nat, size: nat | q in x'.pages && OnPage(x'.pages[q], start, size)
      ensures Registered(x', Place(start, size, Some(q)))
    {
      assert OnPage(x.pages[q], start, size);
      assert Registered(x, Place(start, size, Some(q)));
    }
  }

  lemma {:induction false} AddPageKeepsLarge<N, P>(x: Index<N, P>, p: P, base: nat)
    requires LargeRegistered(x) && p !in x.pages && FreshMemory(x, base, PAGE_SIZE)
    ensures LargeRegistered(AddPage(x, p, base))
  {
    forall n | n in x.large ensures LargeGood(AddPage(x, p, base), n) {
      assert LargeGood(x, n);
    }
  }

  lemma {:induction false} AddPageAgrees<N, P>(x: Index<N, P>, p: P, base: nat)
    requires Agrees(x) && p !in x.pages && FreshMemory(x, base, PAGE_SIZE)
    ensures Agrees(AddPage(x, p, base))
  {
    assert PageGood(PageView(base, []));
    AddPageRegisters(x, p, base);
    AddPageKeepsLarge(x, p, base);
  }

  /** `RegisterObject` for a large object, whose handle was appended to the list. */
  function RegisterLarge<N(==), P>(x: Index<N, P>, n: N, start: nat, size: nat): Index<N, P> {
    x.(large := x.large + [n], lookup := x.lookup[start := n], places := x.places[n := Place(start, size, None)])
  }

  lemma {:induction false} FreshIsUnregistered<N, P>(x: Index<N, P>, start: nat, size: nat)
    requires PagesGood(x) && EntriesPlaced(x) && LargeRegistered(x) && FreshMemory(x, start, size) && size > 0
    ensures start !in x.lookup
  {
    forall a | a in x.lookup ensures a != start {
      var place := x.places[x.lookup[a]];
      if place.page.None? {
        assert LargeGood(x, x.lookup[a]);
      } else {
        BlockInPage(x.pages[place.page.value], a, place.size);
      }
    }
  }

  lemma {:induction false} RegisterLargeKeeps<N, P>(x: Index<N, P>, n: N, start: nat, size: nat)
    requires BlocksRegistered(x) && EntriesPlaced(x) && n !in x.places && start !in x.lookup
    ensures BlocksRegistered(RegisterLarge(x, n, start, size)) && EntriesPlaced(RegisterLarge(x, n, start, size))
  {
    var x' := RegisterLarge(x, n, start, size);
    assert x'.large[|x.large|] == n;
    forall q, a: nat, z: nat | q in x'.pages && OnPage(x'.pages[q], a, z) ensures Registered(x', Place(a, z, Some(q))) {
      assert Registered(x, Place(a, z, Some(q)));
    }
    forall m | m in x.large ensures m in x'.large {
      var i :| 0 <= i < |x.large| && x.large[i] == m;
      assert x'.large[i] == m;
    }
  }

  lemma {:induction false} RegisterLargeKeepsLarge<N, P>(x: Index<N, P>, n: N, start: nat, size: nat)
    requires LargeRegistered(x) && n !in x.places && start !in x.lookup && size > PAGE_SIZE && FreshMemory(x, start, size)
    ensures LargeRegistered(RegisterLarge(x, n, start, size))
  {
    var x' := RegisterLarge(x, n, start, size);
    forall m | m in x'.large ensures LargeGood(x', m) {
      assert m != n ==> m in x.large && LargeGood(x, m);
    }
    forall i | 0 <= i < |x.large| ensures x'.large[i] == x.large[i] && x.large[i] != n {
      assert LargeGood(x, x.large[i]);
    }
  }

  /** A large object in fresh memory collides with nothing. */
  lemma {:induction false} RegisterLargeAgrees<N, P>(x: Index<N, P>, n: N, start: nat, size: nat)
    requires Agrees(x) && n !in x.places && size > PAGE_SIZE && FreshMemory(x, start, size)
    ensures start !in x.lookup && Agrees(RegisterLarge(x, n, start, size))
  {
    FreshIsUnregistered(x, start, size);
    RegisterLargeKeeps(x, n, start, size);
    RegisterLargeKeepsLarge(x, n, start, size);
  }

  /** No object is on a page twice. */
  lemma {:induction false} FoundIsDistinct<N, P>(x: Index<N, P>, p: P)
    requires Agrees(x) && p in x.pages
    ensures Distinct(Found(x.lookup, x.pages[p].base, x.pages[p].blocks))
  {
    FoundOnPage(x, p);
    var blocks, found := x.pages[p].blocks, Found(x.lookup, x.pages[p].base, x.pages[p].blocks);
    forall i, j | 0 <= i < j < |found| ensures found[i] != found[j] {
      StartsDiffer(x.pages[p], i, j);
      BlockIsRegistered(x, p, i);
      BlockIsRegistered(x, p, j);
    }
  }

  /** Large objects are on no page. */
  lemma {:induction false} LargeAreElsewhere<N, P>(x: Index<N, P>, p: P)
    requires Agrees(x) && p in x.pages
    ensures forall n :: n in x.large ==> n !in Found(x.lookup, x.pages[p].base, x.pages[p].blocks)
  {
    FoundOnPage(x, p);
    var blocks, found := x.pages[p].blocks, Found(x.lookup, x.pages[p].base, x.pages[p].blocks);
    forall i | 0 <= i < |found| ensures found[i] !in x.large {
      BlockIsRegistered(x, p, i);
      assert found[i] in x.large ==> LargeGood(x, found[i]);
    }
  }

  lemma {:induction false} FreshIsNotLookedUp<N, P>(x: Index<N, P>, start: nat, size: nat)
    requires Agrees(x) && FreshMemory(x, start, size) && size > 0
    ensures start !in x.lookup
  {
    hide BlocksRegistered, FreshMemory;
    FreshIsUnregistered(x, start, size);
  }

  lemma {:induction false} RegisterLargeKeepsUndead<N, P>(x: Index<N, P>, n: N, start: nat, size: nat, destroyed: set<N>)
    requires Undead(x, destroyed) && n !in destroyed && n !in x.places && start !in x.lookup
    ensures Undead(RegisterLarge(x, n, start, size), destroyed)
  {
  }

  /** `DestroyLargeObject` and the removal from the list. */
  function UnregisterLarge<N, P>(x: Index<N, P>, i: nat): Index<N, P>
    requires i < |x.large| && x.large[i] in x.places
  {
    x.(large := SwapPop(x.large, i), lookup := x.lookup - {x.places[x.large[i]].start})
  }

  lemma {:induction false} UnregisterLargeKeeps<N, P>(x: Index<N, P>, i: nat)
    requires PagesGood(x) && BlocksRegistered(x) && EntriesPlaced(x) && LargeRegistered(x) && i < |x.large|
    ensures x.large[i] in x.places
    ensures BlocksRegistered(UnregisterLarge(x, i)) && EntriesPlaced(UnregisterLarge(x, i))
  {
    var n := x.large[i];
    assert LargeGood(x, n);
    SwapPopMembers(x.large, i);
    var x' := UnregisterLarge(x, i);
    forall q, a: nat, z: nat | q in x'.pages && OnPage(x'.pages[q], a, z) ensures Registered(x', Place(a, z, Some(q))) {
      assert Registered(x, Place(a, z, Some(q)));
    }
  }

  lemma {:induction false} UnregisterLargeKeepsLarge<N, P>(x: Index<N, P>, i: nat)
    requires LargeRegistered(x) && i < |x.large| && x.large[i] in x.places
    ensures LargeRegistered(UnregisterLarge(x, i))
  {
    SwapPopMembers(x.large, i);
    var x' := UnregisterLarge(x, i);
    forall m | m in x'.large ensures LargeGood(x', m) {
      assert LargeGood(x, m) && LargeGood(x, x.large[i]);
    }
  }

  lemma {:induction false} UnregisterLargeAgrees<N, P>(x: Index<N, P>, i: nat)
    requires Agrees(x) && i < |x.large|
    ensures x.large[i] in x.places && Registered(x, x.places[x.large[i]]) && Agrees(UnregisterLarge(x, i))
  {
    assert LargeGood(x, x.large[i]);
    UnregisterLargeKeeps(x, i);
    UnregisterLargeKeepsLarge(x, i);
  }

  /** Destroying the large object at `i`, as the passes over the list need it. */
  lemma {:induction false} UnregisterLargeDuringPass<N, P>(x: Index<N, P>, i: nat, destroyed: set<N>)
    requires Agrees(x) && Undead(x, destroyed) && i < |x.large|
    ensures x.large[i] in x.places
    ensures Agrees(UnregisterLarge(x, i)) && Undead(UnregisterLarge(x, i), destroyed + {x.large[i]})
  {
    UnregisterLargeAgrees(x, i);
    forall a | a in x.lookup && a != x.places[x.large[i]].start ensures x.lookup[a] != x.large[i] {
      assert x.places[x.lookup[a]].start == a;
    }
  }

  /** What a pass over the large objects needs to know about the one it is at. */
  lemma {:induction false} LargeIsRegistered<N, P>(x: Index<N, P>)
    requires Agrees(x)
    ensures Distinct(x.large)
    ensures forall i :: 0 <= i < |x.large| ==>
              && x.large[i] in x.places && x.places[x.large[i]].start in x.lookup
              && x.lookup[x.places[x.large[i]].start] == x.large[i]
  {
    forall i | 0 <= i < |x.large| ensures LargeGood(x, x.large[i]) {
    }
  }
}
