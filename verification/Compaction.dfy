/**
 The compaction of one page as a function on its blocks: every movable object slides down to
 the lowest aligned address behind its predecessor, if that is at least one element away and
 its lock is free.
 */
module Compaction {
  import opened Layout

  /** A block with what its handle and type say about it. */
  datatype Item = Item(block: Block, elementSize: nat, alignment: nat, immovable: bool)

  /** Elements have a size, and the block starts at an address aligned for its type. */
  ghost predicate Typed(base: nat, item: Item) {
    item.elementSize > 0 && item.alignment > 0 && (base + item.block.offset) % item.alignment == 0
  }

  /** The items follow each other from `previousEnd` on and stay inside the page. */
  ghost predicate Laid(base: nat, items: seq<Item>, previousEnd: nat) {
    items != [] ==>
      && Typed(base, items[0]) && previousEnd <= items[0].block.offset && End(items[0].block) <= PAGE_SIZE
      && Laid(base, items[1..], End(items[0].block))
  }

  // ---------------------------------------------------------------- one object

  /** The lowest aligned offset at or above `previousEnd`. */
  function Target(base: nat, previousEnd: nat, alignment: nat): (r: nat)
    requires alignment > 0
    ensures previousEnd <= r
  {
    previousEnd + AlignmentCorrection(base + previousEnd, alignment)
  }

  /** The gap that the code computes in unsigned arithmetic does not underflow. */
  lemma {:induction false} TargetBelow(base: nat, previousEnd: nat, item: Item)
    requires Typed(base, item) && previousEnd <= item.block.offset
    ensures Target(base, previousEnd, item.alignment) <= item.block.offset
    ensures (base + Target(base, previousEnd, item.alignment)) % item.alignment == 0
  {
    CorrectionIsLeast(base + previousEnd, item.alignment, base + item.block.offset);
    CorrectionAligns(base + previousEnd, item.alignment);
    assert base + Target(base, previousEnd, item.alignment)
        == (base + previousEnd) + AlignmentCorrection(base + previousEnd, item.alignment);
  }

  /** Whether the code tries to move the object. */
  predicate WantsMove(base: nat, previousEnd: nat, item: Item)
    requires Typed(base, item) && previousEnd <= item.block.offset
  {
    TargetBelow(base, previousEnd, item);
    !item.immovable && item.block.offset - Target(base, previousEnd, item.alignment) >= item.elementSize
  }

  /** Where the object ends up; `locked` is the outcome of the attempt to lock it. */
  function Settled(base: nat, previousEnd: nat, item: Item, locked: bool): (b: Block)
    requires Typed(base, item) && previousEnd <= item.block.offset
    ensures b.size == item.block.size && previousEnd <= b.offset <= item.block.offset
    ensures item.immovable ==> b == item.block
  {
    TargetBelow(base, previousEnd, item);
    if WantsMove(base, previousEnd, item) && locked
    then Block(Target(base, previousEnd, item.alignment), item.block.size)
    else item.block
  }

  lemma {:induction false} SettledIsTyped(base: nat, previousEnd: nat, item: Item, locked: bool)
    requires Typed(base, item) && previousEnd <= item.block.offset
    ensures Typed(base, item.(block := Settled(base, previousEnd, item, locked)))
  {
    TargetBelow(base, previousEnd, item);
  }

  // ---------------------------------------------------------------- the whole page

  datatype Compacted = Compacted(items: seq<Item>, clock: nat)

  /** The remaining items when the blocks before them end further down. */
  lemma {:induction false} LaidLower(base: nat, items: seq<Item>, previousEnd: nat, lower: nat)
    requires Laid(base, items, previousEnd) && lower <= previousEnd
    ensures Laid(base, items, lower)
  {
  }

  /** `DefragmentOnPage` from the point where the blocks before `items` end at `previousEnd`. */
  function Compact(base: nat, items: seq<Item>, previousEnd: nat, locks: nat -> bool, clock: nat): (r: Compacted)
    requires Laid(base, items, previousEnd)
    ensures |r.items| == |items|
    decreases |items|
  {
    if items == [] then Compacted([], clock)
    else
      var b := Settled(base, previousEnd, items[0], locks(clock));
      LaidLower(base, items[1..], End(items[0].block), End(b));
      var rest := Compact(base, items[1..], End(b), locks, if WantsMove(base, previousEnd, items[0]) then clock + 1 else clock);
      Compacted([items[0].(block := b)] + rest.items, rest.clock)
  }

  /**
   Whatever locks are refused, compaction keeps the blocks sorted, disjoint, in bounds and
   aligned, in their order and with their sizes; nothing moves up, nothing immovable moves, and
   nothing else about an object changes.
   */
  lemma {:induction false} CompactKeepsLayout(base: nat, items: seq<Item>, previousEnd: nat, locks: nat -> bool, clock: nat)
    requires Laid(base, items, previousEnd)
    ensures var r := Compact(base, items, previousEnd, locks, clock).items;
            && Laid(base, r, previousEnd)
            && forall i :: 0 <= i < |items| ==>
                 && r[i] == items[i].(block := r[i].block)
                 && r[i].block.size == items[i].block.size && r[i].block.offset <= items[i].block.offset
                 && (items[i].immovable ==> r[i] == items[i])
    decreases |items|
  {
    if items != [] {
      var b := Settled(base, previousEnd, items[0], locks(clock));
      LaidLower(base, items[1..], End(items[0].block), End(b));
      SettledIsTyped(base, previousEnd, items[0], locks(clock));
      CompactKeepsLayout(base, items[1..], End(b), locks, if WantsMove(base, previousEnd, items[0]) then clock + 1 else clock);
    }
  }

  /** The free tail of the page never shrinks. */
  lemma {:induction false} CompactFreesTail(base: nat, items: seq<Item>, previousEnd: nat, locks: nat -> bool, clock: nat)
    requires Laid(base, items, previousEnd) && items != []
    ensures var r := Compact(base, items, previousEnd, locks, clock).items;
            End(r[|r| - 1].block) <= End(items[|items| - 1].block)
  {
    CompactKeepsLayout(base, items, previousEnd, locks, clock);
  }

  /** No movable object sits a whole element or more above the lowest address it could have. */
  ghost predicate Dense(base: nat, items: seq<Item>, previousEnd: nat)
    requires Laid(base, items, previousEnd)
  {
    items != [] ==>
      && (!items[0].immovable ==>
            items[0].block.offset < Target(base, previousEnd, items[0].alignment) + items[0].elementSize)
      && Dense(base, items[1..], End(items[0].block))
  }

  lemma {:induction false} CompactIsDense(base: nat, items: seq<Item>, previousEnd: nat, locks: nat -> bool, clock: nat)
    requires Laid(base, items, previousEnd) && forall t :: locks(t)
    ensures var r := Compact(base, items, previousEnd, locks, clock).items;
            Laid(base, r, previousEnd) && Dense(base, r, previousEnd)
    decreases |items|
  {
    CompactKeepsLayout(base, items, previousEnd, locks, clock);
    if items != [] {
      var b := Settled(base, previousEnd, items[0], locks(clock));
      LaidLower(base, items[1..], End(items[0].block), End(b));
      CompactIsDense(base, items[1..], End(b), locks, if WantsMove(base, previousEnd, items[0]) then clock + 1 else clock);
    }
  }

  /** A dense page stays as it is. */
  lemma {:induction false} DenseStays(base: nat, items: seq<Item>, previousEnd: nat, locks: nat -> bool, clock: nat)
    requires Laid(base, items, previousEnd) && Dense(base, items, previousEnd)
    ensures Compact(base, items, previousEnd, locks, clock) == Compacted(items, clock)
    decreases |items|
  {
    if items != [] {
      DenseStays(base, items[1..], End(items[0].block), locks, clock);
    }
  }

  /** With all locks free, compacting packs the page densely, and compacting it again moves nothing. */
  lemma {:induction false} SecondPassMovesNothing(base: nat, items: seq<Item>, locks: nat -> bool, clock: nat, locks': nat -> bool)
    requires Laid(base, items, 0) && forall t :: locks(t)
    ensures var r := Compact(base, items, 0, locks, clock);
            && Laid(base, r.items, 0) && Dense(base, r.items, 0)
            && Compact(base, r.items, 0, locks', r.clock) == r
  {
    CompactIsDense(base, items, 0, locks, clock);
    var r := Compact(base, items, 0, locks, clock);
    DenseStays(base, r.items, 0, locks', r.clock);
  }

  // ---------------------------------------------------------------- where objects come to lie

  ghost predicate Aligned(base: nat, o: nat, alignment: nat)
    requires alignment > 0
  {
    (base + o) % alignment == 0
  }

  /** No lower offset from `low` on is aligned. */
  ghost predicate Lowest(base: nat, low: nat, o: nat, alignment: nat)
    requires alignment > 0
  {
    low <= o && Aligned(base, o, alignment) && forall p: nat :: low <= p < o ==> !Aligned(base, p, alignment)
  }

  lemma {:induction false} TargetIsLowest(base: nat, low: nat, alignment: nat)
    requires alignment > 0
    ensures Lowest(base, low, Target(base, low, alignment), alignment)
  {
    hide AlignmentCorrection;
    TargetIsAligned(base, low, alignment);
    forall p: nat | low <= p < Target(base, low, alignment) ensures !Aligned(base, p, alignment) {
      NoneBelowTarget(base, low, p, alignment);
    }
  }

  lemma {:induction false} TargetIsAligned(base: nat, low: nat, alignment: nat)
    requires alignment > 0
    ensures Aligned(base, Target(base, low, alignment), alignment)
  {
    CorrectionAligns(base + low, alignment);
    assert base + Target(base, low, alignment) == (base + low) + AlignmentCorrection(base + low, alignment);
  }

  lemma {:induction false} NoneBelowTarget(base: nat, low: nat, p: nat, alignment: nat)
    requires alignment > 0 && low <= p < Target(base, low, alignment)
    ensures !Aligned(base, p, alignment)
  {
    hide AlignmentCorrection;
    if Aligned(base, p, alignment) {
      CorrectionIsLeast(base + low, alignment, base + p);
    }
  }

  lemma {:induction false} LowestIsOne(base: nat, low: nat, o: nat, p: nat, alignment: nat)
    requires alignment > 0 && Lowest(base, low, o, alignment) && Lowest(base, low, p, alignment)
    ensures o == p
  {
  }

  /**
   The outcome of a compaction in terms of offsets alone. Each object in turn is tried to lock if it
   is movable and the lowest aligned offset behind its predecessor is at least one element away, and
   goes there if the attempt succeeds. It stays where it is otherwise.
   */
  ghost predicate Slides(base: nat, items: seq<Item>, low: nat, locks: nat -> bool, clock: nat, r: Compacted)
    requires Laid(base, items, low)
    decreases |items|
  {
    if items == [] then r == Compacted([], clock)
    else
      && r.items != [] && r.items[0] == items[0].(block := Block(r.items[0].block.offset, items[0].block.size))
      && exists o: nat :: Lowest(base, low, o, items[0].alignment) && Lands(base, items, low, locks, clock, r, o)
  }

  ghost predicate Lands(base: nat, items: seq<Item>, low: nat, locks: nat -> bool, clock: nat, r: Compacted, o: nat)
    requires Laid(base, items, low) && items != [] && r.items != []
    decreases |items|, 0
  {
    var tries := !items[0].immovable && items[0].block.offset - o >= items[0].elementSize;
    && r.items[0].block.offset == (if tries && locks(clock) then o else items[0].block.offset)
    && Laid(base, items[1..], End(r.items[0].block))
    && Slides(base, items[1..], End(r.items[0].block), locks, if tries then clock + 1 else clock, Compacted(r.items[1..], r.clock))
  }

  lemma {:induction false} CompactSlides(base: nat, items: seq<Item>, low: nat, locks: nat -> bool, clock: nat)
    requires Laid(base, items, low)
    ensures Slides(base, items, low, locks, clock, Compact(base, items, low, locks, clock))
    decreases |items|
  {
    if items != [] {
      hide AlignmentCorrection;
      CompactByOne(base, items, low, locks, clock);
      TargetBelow(base, low, items[0]);
      var o, r := Target(base, low, items[0].alignment), Compact(base, items, low, locks, clock);
      TargetIsLowest(base, low, items[0].alignment);
      CompactSlides(base, items[1..], End(r.items[0].block), locks, if WantsMove(base, low, items[0]) then clock + 1 else clock);
      assert Lands(base, items, low, locks, clock, r, o);
    }
  }

  /** Whichever locks are refused, every object stays where it is or gets the lowest aligned offset behind its predecessor. */
  lemma {:induction false} StaysOrLowest(base: nat, items: seq<Item>, low: nat, locks: nat -> bool, clock: nat, i: nat)
    requires Laid(base, items, low) && i < |items|
    ensures var r := Compact(base, items, low, locks, clock).items;
            var behind := if i == 0 then low else End(r[i - 1].block);
            && items[i].alignment > 0
            && (r[i] == items[i] || Lowest(base, behind, r[i].block.offset, items[i].alignment))
    decreases |items|
  {
    hide AlignmentCorrection, Lowest;
    CompactByOne(base, items, low, locks, clock);
    if i == 0 {
      TargetIsLowest(base, low, items[0].alignment);
    } else {
      var b := Settled(base, low, items[0], locks(clock));
      StaysOrLowest(base, items[1..], End(b), locks, if WantsMove(base, low, items[0]) then clock + 1 else clock, i - 1);
    }
  }

  /** With all locks free it stays only if it cannot move or would move by less than an element. */
  lemma {:induction false} FreeObjectsSlide(base: nat, items: seq<Item>, low: nat, locks: nat -> bool, clock: nat, i: nat, o: nat)
    requires Laid(base, items, low) && i < |items| && forall t :: locks(t)
    requires items[i].alignment > 0 ==>
               Lowest(base, if i == 0 then low else End(Compact(base, items, low, locks, clock).items[i - 1].block), o, items[i].alignment)
    ensures var r := Compact(base, items, low, locks, clock).items;
            r[i].block.offset ==
              if !items[i].immovable && items[i].block.offset - o >= items[i].elementSize then o else items[i].block.offset
    decreases |items|
  {
    hide AlignmentCorrection, Lowest;
    CompactByOne(base, items, low, locks, clock);
    if i == 0 {
      TargetIsLowest(base, low, items[0].alignment);
      LowestIsOne(base, low, o, Target(base, low, items[0].alignment), items[0].alignment);
    } else {
      var b := Settled(base, low, items[0], locks(clock));
      FreeObjectsSlide(base, items[1..], End(b), locks, if WantsMove(base, low, items[0]) then clock + 1 else clock, i - 1, o);
    }
  }

  // ---------------------------------------------------------------- compaction in place

  function LastEnd(items: seq<Item>, i: nat): nat
    requires i <= |items|
  {
    if i == 0 then 0 else End(items[i - 1].block)
  }

  /** The item at `i` after its turn. */
  function Turned(base: nat, items: seq<Item>, i: nat, locked: bool): seq<Item>
    requires i < |items| && Typed(base, items[i]) && LastEnd(items, i) <= items[i].block.offset
  {
    items[i := items[i].(block := Settled(base, LastEnd(items, i), items[i], locked))]
  }

  /** Where compaction in place is: the items before `i` are settled, and finishing from here gives `all`. */
  ghost predicate Underway(base: nat, all: Compacted, items: seq<Item>, i: nat, locks: nat -> bool, clock: nat) {
    && i <= |items| && Laid(base, items[i..], LastEnd(items, i))
    && var rest := Compact(base, items[i..], LastEnd(items, i), locks, clock);
       all == Compacted(items[..i] + rest.items, rest.clock)
  }

  lemma {:induction false} CompactionStarts(base: nat, items: seq<Item>, locks: nat -> bool, clock: nat)
    requires Laid(base, items, 0)
    ensures Underway(base, Compact(base, items, 0, locks, clock), items, 0, locks, clock)
  {
    assert items[0..] == items;
  }

  lemma CompactOfNone(base: nat, previousEnd: nat, locks: nat -> bool, clock: nat)
    ensures Laid(base, [], previousEnd) && Compact(base, [], previousEnd, locks, clock) == Compacted([], clock)
  {
  }

  lemma {:induction false} CompactByOne(base: nat, items: seq<Item>, previousEnd: nat, locks: nat -> bool, clock: nat)
    requires Laid(base, items, previousEnd) && items != []
    ensures Typed(base, items[0]) && previousEnd <= items[0].block.offset
    ensures var b := Settled(base, previousEnd, items[0], locks(clock));
            && Laid(base, items[1..], End(b))
            && var rest := Compact(base, items[1..], End(b), locks, if WantsMove(base, previousEnd, items[0]) then clock + 1 else clock);
               Compact(base, items, previousEnd, locks, clock) == Compacted([items[0].(block := b)] + rest.items, rest.clock)
  {
    LaidLower(base, items[1..], End(items[0].block), End(Settled(base, previousEnd, items[0], locks(clock))));
  }

  lemma {:induction false} TurnedSlices<T>(items: seq<T>, i: nat, x: T, rest: seq<T>)
    requires i < |items|
    ensures items[i..][0] == items[i] && items[i..][1..] == items[i := x][i + 1..]
    ensures items[..i] + ([x] + rest) == items[i := x][..i + 1] + rest
  {
    var turned := items[i := x];
    assert turned[..i + 1] == items[..i] + [x];
    assert items[..i] + ([x] + rest) == (items[..i] + [x]) + rest;
  }

  lemma {:induction false} CompactionContinues(base: nat, all: Compacted, items: seq<Item>, i: nat, locks: nat -> bool, clock: nat)
    requires Underway(base, all, items, i, locks, clock) && i < |items|
    ensures Typed(base, items[i]) && LastEnd(items, i) <= items[i].block.offset
    ensures Underway(base, all, Turned(base, items, i, locks(clock)), i + 1, locks,
                     if WantsMove(base, LastEnd(items, i), items[i]) then clock + 1 else clock)
  {
    hide Laid, Compact, Settled, WantsMove, Typed, LastEnd;
    var tail, previousEnd := items[i..], LastEnd(items, i);
    assert tail[0] == items[i];
    CompactByOne(base, tail, previousEnd, locks, clock);
    var item := items[i].(block := Settled(base, previousEnd, items[i], locks(clock)));
    var clock' := if WantsMove(base, previousEnd, items[i]) then clock + 1 else clock;
    var rest := Compact(base, tail[1..], End(item.block), locks, clock');
    TurnedSlices(items, i, item, rest.items);
    EndOfTurned(items, i, item);
  }

  lemma {:induction false} EndOfTurned(items: seq<Item>, i: nat, item: Item)
    requires i < |items|
    ensures LastEnd(items[i := item], i + 1) == End(item.block)
  {
  }

  lemma {:induction false} CompactionEnds(base: nat, all: Compacted, items: seq<Item>, locks: nat -> bool, clock: nat)
    requires Underway(base, all, items, |items|, locks, clock)
    ensures all == Compacted(items, clock)
  {
  }

  // ---------------------------------------------------------------- bytes

  /** The block `i` has in `after` the bytes that it had in `before`. */
  ghost predicate Carried<T>(blocks: seq<Block>, before: seq<T>, blocks': seq<Block>, after: seq<T>, i: nat) {
    && i < |blocks| == |blocks'| && End(blocks[i]) <= |before| && End(blocks'[i]) <= |after|
    && after[blocks'[i].offset..End(blocks'[i])] == before[blocks[i].offset..End(blocks[i])]
  }

  /** Only the bytes from the new place of block `i` to its old end change. */
  ghost predicate ChangedOnlyAt<T>(blocks: seq<Block>, i: nat, offset: nat, before: seq<T>, after: seq<T>) {
    && i < |blocks| && |after| == |before|
    && forall k :: 0 <= k < |before| && !(offset <= k < End(blocks[i])) ==> after[k] == before[k]
  }

  /** Sliding one block down disturbs no other. */
  lemma {:induction false} OthersCarried<T>(blocks: seq<Block>, i: nat, offset: uint16, before: seq<T>, after: seq<T>, j: nat)
    requires Ordered(blocks) && |before| == PAGE_SIZE && ChangedOnlyAt(blocks, i, offset, before, after)
    requires PreviousEnd(blocks, i) <= offset <= blocks[i].offset
    requires j < |blocks| && j != i
    ensures Carried(blocks, before, blocks[i := Block(offset, blocks[i].size)], after, j)
  {
    var b := blocks[j];
    assert End(b) <= PAGE_SIZE;
    if j < i {
      assert j < i - 1 ==> End(b) <= blocks[i - 1].offset;
    } else {
      assert End(blocks[i]) <= b.offset;
    }
    assert forall k :: b.offset <= k < End(b) ==> after[k] == before[k];
  }

  lemma {:induction false} CarriedOn<T>(blocks: seq<Block>, before: seq<T>, blocks': seq<Block>, between: seq<T>, blocks'': seq<Block>, after: seq<T>, i: nat)
    requires Carried(blocks, before, blocks', between, i) && Carried(blocks', between, blocks'', after, i)
    ensures Carried(blocks, before, blocks'', after, i)
  {
  }

  // ---------------------------------------------------------------- items and blocks

  function Blocks(items: seq<Item>): (r: seq<Block>)
    ensures |r| == |items| && forall i :: 0 <= i < |items| ==> r[i] == items[i].block
  {
    seq(|items|, i requires 0 <= i < |items| => items[i].block)
  }

  lemma {:induction false} OrderedIsLaid(base: nat, items: seq<Item>, previousEnd: nat)
    requires Ordered(Blocks(items)) && forall i :: 0 <= i < |items| ==> Typed(base, items[i])
    requires items != [] ==> previousEnd <= items[0].block.offset
    ensures Laid(base, items, previousEnd)
    decreases |items|
  {
    if items != [] {
      var all, tail := Blocks(items), Blocks(items[1..]);
      assert forall i :: 0 <= i < |tail| ==> tail[i] == all[i + 1];
      assert |items| > 1 ==> End(all[0]) <= all[1].offset;
      assert End(all[0]) <= PAGE_SIZE;
      OrderedIsLaid(base, items[1..], End(items[0].block));
    }
  }

  lemma {:induction false} LaidAbove(base: nat, items: seq<Item>, previousEnd: nat)
    requires Laid(base, items, previousEnd)
    ensures forall i :: 0 <= i < |items| ==>
              Typed(base, items[i]) && previousEnd <= items[i].block.offset && End(items[i].block) <= PAGE_SIZE
    decreases |items|
  {
    if items != [] {
      LaidAbove(base, items[1..], End(items[0].block));
    }
  }

  lemma {:induction false} LaidIsOrdered(base: nat, items: seq<Item>, previousEnd: nat)
    requires Laid(base, items, previousEnd)
    ensures Ordered(Blocks(items))
    decreases |items|
  {
    LaidAbove(base, items, previousEnd);
    if items != [] {
      LaidAbove(base, items[1..], End(items[0].block));
      LaidIsOrdered(base, items[1..], End(items[0].block));
      var all, tail := Blocks(items), Blocks(items[1..]);
      assert forall i :: 0 < i < |all| ==> all[i] == tail[i - 1];
    }
  }

  /** A movable array of two elements of 8 bytes behind a gap of 8 bytes moves to the start of its page. */
  lemma MoveExample(locks: nat -> bool)
    requires locks(0)
    ensures var items := [Item(Block(8, 16), 8, 8, false)];
            Laid(0, items, 0) && Compact(0, items, 0, locks, 0) == Compacted([Item(Block(0, 16), 8, 8, false)], 1)
  {
  }
}
