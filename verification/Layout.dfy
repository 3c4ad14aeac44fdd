/**
 The layout of one page: first-fit allocation with alignment, removal, and compaction, as
 functions on the page's list of blocks. Offsets are relative to the page, alignment concerns
 absolute addresses.
 */
module Layout {
  import opened Wrappers

  const PAGE_SIZE: nat := 4096
  const PAGE_ALIGNMENT: nat := 4096

  /** `allocation::size_type` is the smallest unsigned type that holds the page size. */
  type uint16 = n: nat | n < 0x1_0000

  datatype Block = Block(offset: uint16, size: uint16)

  // ---------------------------------------------------------------- alignment

  /** `GetAlignmentCorrection`: the distance to the lowest aligned address at or above `ptr`. */
  function AlignmentCorrection(ptr: nat, alignment: nat): (r: nat)
    requires alignment > 0
    ensures r < alignment
  {
    var correction := ptr % alignment;
    if correction != 0 then alignment - correction else 0
  }

  /** The corrected address is aligned. */
  lemma {:induction false} CorrectionAligns(ptr: nat, alignment: nat)
    requires alignment > 0
    ensures (ptr + AlignmentCorrection(ptr, alignment)) % alignment == 0
  {
    var q := ptr / alignment;
    if ptr % alignment != 0 {
      assert ptr + (alignment - ptr % alignment) == (q + 1) * alignment;
      MultipleIsAligned(q + 1, alignment);
    }
  }

  lemma {:induction false} ScaleUp(x: int, k: int)
    requires k > 0
    ensures x > 0 ==> x * k >= k
    ensures x < 0 ==> x * k <= -k
  {
    if x > 0 {
      assert (x - 1) * k >= 0;
    } else if x < 0 {
      assert (-x - 1) * k >= 0;
    }
  }

  lemma {:induction false} MultipleIsAligned(q: nat, k: nat)
    requires k > 0
    ensures (q * k) % k == 0
  {
    var a := q * k;
    var d, r := a / k, a % k;
    assert a == d * k + r;
    var x := q - d;
    assert x * k == q * k - d * k;
    ScaleUp(x, k);
  }

  /** Aligned addresses lie at least one alignment apart. */
  lemma {:induction false} AlignedApart(a: nat, b: nat, k: nat)
    requires k > 0 && a % k == 0 && b % k == 0 && a < b
    ensures b >= a + k
  {
    var qa, qb := a / k, b / k;
    assert a == qa * k && b == qb * k;
    assert qb <= qa ==> qb * k <= qa * k;
    assert qb >= qa + 1 ==> qb * k >= (qa + 1) * k == qa * k + k;
  }

  /** No aligned address is skipped. */
  lemma {:induction false} CorrectionIsLeast(ptr: nat, alignment: nat, p: nat)
    requires alignment > 0 && ptr <= p && p % alignment == 0
    ensures ptr + AlignmentCorrection(ptr, alignment) <= p
  {
    var a := ptr + AlignmentCorrection(ptr, alignment);
    CorrectionAligns(ptr, alignment);
    if p < a {
      AlignedApart(p, a, alignment);
    }
  }

  // ---------------------------------------------------------------- blocks

  function End(b: Block): nat {
    b.offset + b.size
  }

  /** The end of the block before index `i`, or the start of the page. */
  function PreviousEnd(blocks: seq<Block>, i: nat): nat
    requires i <= |blocks|
  {
    if i == 0 then 0 else End(blocks[i - 1])
  }

  /** Blocks are sorted, disjoint and inside the page. */
  ghost predicate Ordered(blocks: seq<Block>) {
    && (forall i :: 0 <= i < |blocks| ==> End(blocks[i]) <= PAGE_SIZE)
    && (forall i, j :: 0 <= i < j < |blocks| ==> End(blocks[i]) <= blocks[j].offset)
  }

  /** The bytes from `offset` on are inside the page and in no block. */
  ghost predicate Free(blocks: seq<Block>, offset: nat, size: nat) {
    && offset + size <= PAGE_SIZE
    && forall i :: 0 <= i < |blocks| ==> offset + size <= blocks[i].offset || End(blocks[i]) <= offset
  }

  ghost predicate Fits(base: nat, blocks: seq<Block>, offset: nat, size: nat, alignment: nat)
    requires alignment > 0
  {
    Free(blocks, offset, size) && (base + offset) % alignment == 0
  }

  lemma {:induction false} GapBefore(blocks: seq<Block>, i: nat)
    requires Ordered(blocks) && i < |blocks|
    ensures PreviousEnd(blocks, i) <= blocks[i].offset && End(blocks[i]) <= PAGE_SIZE
  {
  }

  // ---------------------------------------------------------------- first fit

  /** Where a request goes: before the block at `index` (or last), at `offset`. */
  datatype Slot = Slot(index: nat, offset: nat)

  /** The search of `TryAllocate` from the gap before block `i` on. */
  function FirstFit(base: nat, blocks: seq<Block>, size: nat, alignment: nat, i: nat): (r: Option<Slot>)
    requires Ordered(blocks) && alignment > 0 && i <= |blocks|
    ensures r.Some? ==> i <= r.value.index <= |blocks|
    ensures r.Some? ==> PreviousEnd(blocks, r.value.index) <= r.value.offset && r.value.offset + size <= PAGE_SIZE
    decreases |blocks| - i
  {
    var last := PreviousEnd(blocks, i);
    var padding := AlignmentCorrection(base + last, alignment);
    var limit := if i < |blocks| then blocks[i].offset else PAGE_SIZE;
    if limit - last >= size + padding then Some(Slot(i, last + padding))
    else if i < |blocks| then FirstFit(base, blocks, size, alignment, i + 1)
    else None
  }

  /** The slot is free and aligned and sits between its neighbours. */
  lemma {:induction false} FirstFitFits(base: nat, blocks: seq<Block>, size: nat, alignment: nat, i: nat)
    requires Ordered(blocks) && alignment > 0 && i <= |blocks|
    ensures var r := FirstFit(base, blocks, size, alignment, i);
            r.Some? ==>
              && Fits(base, blocks, r.value.offset, size, alignment)
              && (r.value.index < |blocks| ==> r.value.offset + size <= blocks[r.value.index].offset)
    decreases |blocks| - i
  {
    var r := FirstFit(base, blocks, size, alignment, i);
    if r.Some? {
      if r.value.index > i {
        FirstFitFits(base, blocks, size, alignment, i + 1);
      } else {
        CorrectionAligns(base + PreviousEnd(blocks, i), alignment);
        assert base + r.value.offset == base + PreviousEnd(blocks, i) + AlignmentCorrection(base + PreviousEnd(blocks, i), alignment);
      }
    }
  }

  lemma {:induction false} RoomIsFree(base: nat, blocks: seq<Block>, size: nat, alignment: nat)
    requires Ordered(blocks) && alignment > 0
    ensures var r := FirstFit(base, blocks, size, alignment, 0); r.Some? ==> Free(blocks, r.value.offset, size)
  {
    hide FirstFit;
    FirstFitFits(base, blocks, size, alignment, 0);
  }

  /** No fitting address below the slot is passed over. */
  lemma {:induction false} FirstFitIsLowest(base: nat, blocks: seq<Block>, size: nat, alignment: nat, i: nat, o: nat)
    requires Ordered(blocks) && alignment > 0 && i <= |blocks| && size > 0
    requires PreviousEnd(blocks, i) <= o && Fits(base, blocks, o, size, alignment)
    ensures var r := FirstFit(base, blocks, size, alignment, i); r.Some? && r.value.offset <= o
    decreases |blocks| - i
  {
    CorrectionIsLeast(base + PreviousEnd(blocks, i), alignment, base + o);
    if i < |blocks| && End(blocks[i]) <= o {
      FirstFitIsLowest(base, blocks, size, alignment, i + 1, o);
    }
  }

  /**
   `TryAllocate` finds a slot exactly if the page has a free aligned range of the requested
   size, and then it is the lowest one.
   */
  lemma {:induction false} FirstFitDecides(base: nat, blocks: seq<Block>, size: nat, alignment: nat)
    requires Ordered(blocks) && alignment > 0 && size > 0
    ensures var r := FirstFit(base, blocks, size, alignment, 0);
            && (r.Some? <==> exists o :: Fits(base, blocks, o, size, alignment))
            && (r.Some? ==> Fits(base, blocks, r.value.offset, size, alignment)
                            && forall o :: Fits(base, blocks, o, size, alignment) ==> r.value.offset <= o)
  {
    FirstFitFits(base, blocks, size, alignment, 0);
    forall o | Fits(base, blocks, o, size, alignment)
      ensures var r := FirstFit(base, blocks, size, alignment, 0); r.Some? && r.value.offset <= o
    {
      FirstFitIsLowest(base, blocks, size, alignment, 0, o);
    }
  }

  /** An empty page, aligned as pages are, takes every request up to its size. */
  lemma {:induction false} EmptyPageFits(base: nat, size: nat, alignment: nat)
    requires alignment > 0 && base % PAGE_ALIGNMENT == 0 && PAGE_ALIGNMENT % alignment == 0 && size <= PAGE_SIZE
    ensures FirstFit(base, [], size, alignment, 0) == Some(Slot(0, 0))
  {
    var q, k := base / PAGE_ALIGNMENT, PAGE_ALIGNMENT / alignment;
    assert base == q * PAGE_ALIGNMENT && PAGE_ALIGNMENT == k * alignment;
    assert base == (q * k) * alignment by {
      assert q * (k * alignment) == (q * k) * alignment;
    }
    MultipleIsAligned(q * k, alignment);
  }

  lemma {:induction false} NoFitNoTail(base: nat, blocks: seq<Block>, size: nat, alignment: nat, i: nat)
    requires Ordered(blocks) && alignment > 0 && i <= |blocks|
    ensures FirstFit(base, blocks, size, alignment, i).None? ==>
              PAGE_SIZE - PreviousEnd(blocks, |blocks|) < size + AlignmentCorrection(base + PreviousEnd(blocks, |blocks|), alignment)
    decreases |blocks| - i
  {
    if i < |blocks| {
      NoFitNoTail(base, blocks, size, alignment, i + 1);
    }
  }

  /** On every page there is a place for a request of size 0. */
  lemma {:induction false} EmptyRequestFits(base: nat, blocks: seq<Block>, alignment: nat)
    requires Ordered(blocks) && alignment > 0 && base % PAGE_ALIGNMENT == 0 && PAGE_ALIGNMENT % alignment == 0
    ensures FirstFit(base, blocks, 0, alignment, 0).Some?
  {
    hide FirstFit, AlignmentCorrection;
    NoFitNoTail(base, blocks, 0, alignment, 0);
    assert PreviousEnd(blocks, |blocks|) <= PAGE_SIZE;
    PageEndIsAligned(base, alignment);
    CorrectionIsLeast(base + PreviousEnd(blocks, |blocks|), alignment, base + PAGE_SIZE);
  }

  lemma {:induction false} PageEndIsAligned(base: nat, alignment: nat)
    requires alignment > 0 && base % PAGE_ALIGNMENT == 0 && PAGE_ALIGNMENT % alignment == 0
    ensures (base + PAGE_SIZE) % alignment == 0
  {
    var q, k := base / PAGE_ALIGNMENT + 1, PAGE_ALIGNMENT / alignment;
    assert base + PAGE_SIZE == q * PAGE_ALIGNMENT && PAGE_ALIGNMENT == k * alignment;
    assert q * (k * alignment) == (q * k) * alignment;
    MultipleIsAligned(q * k, alignment);
  }

  // ---------------------------------------------------------------- recording the block

  function InsertAt<T>(s: seq<T>, i: nat, x: T): seq<T>
    requires i <= |s|
  {
    s[..i] + [x] + s[i..]
  }

  /** The list with the block that was promised to the caller. */
  function Record(blocks: seq<Block>, slot: Slot, size: nat): seq<Block>
    requires slot.index <= |blocks| && slot.offset + size <= PAGE_SIZE
  {
    InsertAt(blocks, slot.index, Block(slot.offset, size))
  }

  /**
   The list as the code leaves it. In a gap before another block it does not record the
   promised block but one that starts `padding` after the end of the following block.
   */
  function RecordAsWritten(blocks: seq<Block>, slot: Slot, size: nat): seq<Block>
    requires Ordered(blocks) && slot.index <= |blocks|
    requires PreviousEnd(blocks, slot.index) <= slot.offset && slot.offset + size <= PAGE_SIZE
  {
    if slot.index < |blocks| then
      var padding := slot.offset - PreviousEnd(blocks, slot.index);
      InsertAt(blocks, slot.index, Block(End(blocks[slot.index]) + padding, size))
    else blocks + [Block(slot.offset, size)]
  }

  lemma {:induction false} InsertKeepsOrder(blocks: seq<Block>, i: nat, b: Block)
    requires Ordered(blocks) && i <= |blocks| && PreviousEnd(blocks, i) <= b.offset && End(b) <= PAGE_SIZE
    requires i < |blocks| ==> End(b) <= blocks[i].offset
    ensures Ordered(InsertAt(blocks, i, b))
  {
    var after := InsertAt(blocks, i, b);
    assert forall k :: 0 <= k < |after| ==> after[k] == if k < i then blocks[k] else if k == i then b else blocks[k - 1];
    forall k | 0 <= k < i ensures End(blocks[k]) <= b.offset {
      assert k < i - 1 ==> End(blocks[k]) <= blocks[i - 1].offset;
    }
    forall k | i <= k < |blocks| ensures End(b) <= blocks[k].offset {
      assert i < k ==> End(blocks[i]) <= blocks[k].offset;
    }
    forall j, k | 0 <= j < k < |after| ensures End(after[j]) <= after[k].offset {
    }
  }

  /** With the promised block recorded the list stays sorted, disjoint and in bounds. */
  lemma {:induction false} RecordKeepsOrder(base: nat, blocks: seq<Block>, size: nat, alignment: nat)
    requires Ordered(blocks) && alignment > 0 && size > 0
    ensures var r := FirstFit(base, blocks, size, alignment, 0);
            r.Some? ==> Ordered(Record(blocks, r.value, size))
  {
    var r := FirstFit(base, blocks, size, alignment, 0);
    FirstFitFits(base, blocks, size, alignment, 0);
    if r.Some? {
      InsertKeepsOrder(blocks, r.value.index, Block(r.value.offset, size));
    }
  }

  lemma {:induction false} GapRecordIsWrong(blocks: seq<Block>, slot: Slot, size: nat)
    requires Ordered(blocks) && size > 0
    requires slot.index < |blocks| && PreviousEnd(blocks, slot.index) <= slot.offset
    requires slot.offset + size <= blocks[slot.index].offset && Free(blocks, slot.offset, size)
    ensures var written := RecordAsWritten(blocks, slot, size);
            && written != Record(blocks, slot, size) && !Ordered(written) && Block(slot.offset, size) !in written
  {
    var written := RecordAsWritten(blocks, slot, size);
    assert written[slot.index].offset >= End(blocks[slot.index]);
    assert written[slot.index + 1] == blocks[slot.index];
    assert Record(blocks, slot, size)[slot.index] == Block(slot.offset, size);
    forall i | 0 <= i < |written| ensures written[i] != Block(slot.offset, size) {
      assert written[i] == if i < slot.index then blocks[i] else if i == slot.index then written[i] else blocks[i - 1];
    }
  }

  /** The gap before block `k` has room for the request and the padding that it needs there. */
  ghost predicate GapFits(base: nat, blocks: seq<Block>, size: nat, alignment: nat, k: nat)
    requires alignment > 0 && k < |blocks|
  {
    blocks[k].offset - PreviousEnd(blocks, k) >= size + AlignmentCorrection(base + PreviousEnd(blocks, k), alignment)
  }

  ghost predicate NoGapFits(base: nat, blocks: seq<Block>, size: nat, alignment: nat)
    requires alignment > 0
  {
    forall k :: 0 <= k < |blocks| ==> !GapFits(base, blocks, size, alignment, k)
  }

  lemma {:induction false} FirstFittingGap(base: nat, blocks: seq<Block>, size: nat, alignment: nat, i: nat)
    requires Ordered(blocks) && alignment > 0 && i <= |blocks|
    ensures var r := FirstFit(base, blocks, size, alignment, i);
            r.Some? ==>
              && (forall k :: i <= k < r.value.index ==> !GapFits(base, blocks, size, alignment, k))
              && (r.value.index < |blocks| ==> GapFits(base, blocks, size, alignment, r.value.index))
    decreases |blocks| - i
  {
    hide AlignmentCorrection, Ordered, End;
    if i < |blocks| && FirstFit(base, blocks, size, alignment, i).Some? {
      GapBefore(blocks, i);
      if FirstFit(base, blocks, size, alignment, i).value.index > i {
        FirstFittingGap(base, blocks, size, alignment, i + 1);
      }
    }
  }

  /** A request goes behind the last block exactly if no gap fits. */
  lemma {:induction false} AppendedIffNoGapFits(base: nat, blocks: seq<Block>, size: nat, alignment: nat)
    requires Ordered(blocks) && alignment > 0 && FirstFit(base, blocks, size, alignment, 0).Some?
    ensures FirstFit(base, blocks, size, alignment, 0).value.index == |blocks| <==> NoGapFits(base, blocks, size, alignment)
  {
    hide Ordered, FirstFit, GapFits;
    FirstFittingGap(base, blocks, size, alignment, 0);
  }

  /**
   What the code records is the promised block, and leaves a list in order, exactly if no gap
   between blocks has room for the request.
   */
  lemma {:induction false} RecordedRightIffNoGapFits(base: nat, blocks: seq<Block>, size: nat, alignment: nat)
    requires Ordered(blocks) && alignment > 0 && size > 0
    requires FirstFit(base, blocks, size, alignment, 0).Some?
    ensures var slot := FirstFit(base, blocks, size, alignment, 0).value;
            var written := RecordAsWritten(blocks, slot, size);
            && (NoGapFits(base, blocks, size, alignment) <==> written == Record(blocks, slot, size))
            && (NoGapFits(base, blocks, size, alignment) <==> Ordered(written))
            && (NoGapFits(base, blocks, size, alignment) <==> Block(slot.offset, size) in written)
  {
    hide NoGapFits;
    AppendedIffNoGapFits(base, blocks, size, alignment);
    FirstFitFits(base, blocks, size, alignment, 0);
    var slot := FirstFit(base, blocks, size, alignment, 0).value;
    if slot.index < |blocks| {
      GapRecordIsWrong(blocks, slot, size);
    } else {
      RecordKeepsOrder(base, blocks, size, alignment);
      assert RecordAsWritten(blocks, slot, size) == Record(blocks, slot, size);
      assert Record(blocks, slot, size)[slot.index] == Block(slot.offset, size);
    }
  }

  // ---------------------------------------------------------------- removal

  /** `RemoveAllocation`: erases the first block with that offset and size, if there is one. */
  function Remove(blocks: seq<Block>, b: Block): seq<Block> {
    if blocks == [] then []
    else if blocks[0] == b then blocks[1..]
    else [blocks[0]] + Remove(blocks[1..], b)
  }

  lemma {:induction false} RemoveAbsent(blocks: seq<Block>, b: Block)
    requires b !in blocks
    ensures Remove(blocks, b) == blocks
  {
    if blocks != [] {
      RemoveAbsent(blocks[1..], b);
    }
  }

  /** Removing a block erases its first occurrence. */
  lemma {:induction false} RemoveErases(blocks: seq<Block>, i: nat)
    requires i < |blocks| && forall j :: 0 <= j < i ==> blocks[j] != blocks[i]
    ensures Remove(blocks, blocks[i]) == blocks[..i] + blocks[i + 1..]
  {
    if i > 0 {
      assert forall j :: 0 <= j < |blocks| - 1 ==> blocks[1..][j] == blocks[j + 1];
      RemoveErases(blocks[1..], i - 1);
    }
  }

  lemma {:induction false} RemoveInserted(blocks: seq<Block>, i: nat, b: Block)
    requires i <= |blocks| && b !in blocks
    ensures Remove(InsertAt(blocks, i, b), b) == blocks
  {
    var inserted := InsertAt(blocks, i, b);
    if i > 0 {
      RemoveInserted(blocks[1..], i - 1, b);
      assert inserted[0] == blocks[0];
      assert inserted[1..] == InsertAt(blocks[1..], i - 1, b);
    } else {
      assert inserted[1..] == blocks;
    }
  }

  /**
   Removing what `TryAllocate` just returned restores the list if the promised block was
   recorded; with the list as the code leaves it, exactly if no gap has room for the request.
   */
  lemma {:induction false} RemoveRestores(base: nat, blocks: seq<Block>, size: nat, alignment: nat)
    requires Ordered(blocks) && alignment > 0 && size > 0
    requires FirstFit(base, blocks, size, alignment, 0).Some?
    ensures var slot := FirstFit(base, blocks, size, alignment, 0).value;
            var promised := Block(slot.offset, size);
            && Remove(Record(blocks, slot, size), promised) == blocks
            && (NoGapFits(base, blocks, size, alignment) <==> Remove(RecordAsWritten(blocks, slot, size), promised) == blocks)
  {
    hide NoGapFits;
    AppendedIffNoGapFits(base, blocks, size, alignment);
    FirstFitFits(base, blocks, size, alignment, 0);
    RecordedRightIffNoGapFits(base, blocks, size, alignment);
    var slot := FirstFit(base, blocks, size, alignment, 0).value;
    var promised := Block(slot.offset, size);
    assert promised !in blocks;
    RemoveInserted(blocks, slot.index, promised);
    if slot.index < |blocks| {
      RemoveAbsent(RecordAsWritten(blocks, slot, size), promised);
    }
  }

  /** Two blocks of 8 bytes, 8 bytes apart: a request for 8 bytes is promised offset 8 and recorded at 24. */
  lemma {:induction false} GapCounterexample()
    ensures var blocks := [Block(0, 8), Block(16, 8)];
            && Ordered(blocks)
            && FirstFit(0, blocks, 8, 8, 0) == Some(Slot(1, 8))
            && RecordAsWritten(blocks, Slot(1, 8), 8) == [Block(0, 8), Block(24, 8), Block(16, 8)]
  {
    var blocks := [Block(0, 8), Block(16, 8)];
    assert FirstFit(0, blocks, 8, 8, 1) == Some(Slot(1, 8));
  }

  // ---------------------------------------------------------------- the search on any list, in machine arithmetic

  /** `size_t` arithmetic wraps around here. */
  const SIZE_T_MODULUS: nat := 0x1_0000_0000_0000_0000

  type SizeT = n: nat | n < 0x1_0000_0000_0000_0000

  function SizeTSum(a: nat, b: nat): SizeT {
    (a + b) % SIZE_T_MODULUS
  }

  function SizeTDifference(a: nat, b: nat): SizeT {
    (a - b) % SIZE_T_MODULUS
  }

  /**
   The search of `TryAllocate` as the machine runs it: sums and differences wrap around, and the
   blocks may be in any order, as they are once the gap branch has been taken.
   */
  function Scan(base: nat, blocks: seq<Block>, size: nat, alignment: nat, i: nat): (r: Option<Slot>)
    requires alignment > 0 && i <= |blocks|
    ensures r.Some? ==> i <= r.value.index <= |blocks| && PreviousEnd(blocks, r.value.index) <= r.value.offset
    decreases |blocks| - i
  {
    var last := PreviousEnd(blocks, i);
    var padding := AlignmentCorrection(base + last, alignment);
    var limit := if i < |blocks| then blocks[i].offset else PAGE_SIZE;
    if SizeTDifference(limit, last) >= SizeTSum(size, padding) then Some(Slot(i, last + padding))
    else if i < |blocks| then Scan(base, blocks, size, alignment, i + 1)
    else None
  }

  lemma {:induction false} SmallSum(a: nat, b: nat)
    requires a + b < SIZE_T_MODULUS
    ensures SizeTSum(a, b) == a + b
  {
  }

  lemma {:induction false} SmallDifference(a: nat, b: nat)
    requires b <= a < SIZE_T_MODULUS
    ensures SizeTDifference(a, b) == a - b
  {
  }

  /** On an ordered list, and if size and padding do not wrap around, it is the first fit. */
  lemma {:induction false} ScanIsFirstFit(base: nat, blocks: seq<Block>, size: nat, alignment: nat, i: nat)
    requires Ordered(blocks) && alignment > 0 && i <= |blocks| && size + alignment <= SIZE_T_MODULUS
    ensures Scan(base, blocks, size, alignment, i) == FirstFit(base, blocks, size, alignment, i)
    decreases |blocks| - i
  {
    hide AlignmentCorrection, Ordered, SizeTSum, SizeTDifference, End;
    var last := PreviousEnd(blocks, i);
    var limit := if i < |blocks| then blocks[i].offset else PAGE_SIZE;
    var padding := AlignmentCorrection(base + last, alignment);
    if i < |blocks| {
      GapBefore(blocks, i);
      ScanIsFirstFit(base, blocks, size, alignment, i + 1);
    } else {
      EndsOnPage(blocks);
    }
    SmallDifference(limit, last);
    SmallSum(size, padding);
  }

  lemma {:induction false} EndsOnPage(blocks: seq<Block>)
    requires Ordered(blocks)
    ensures PreviousEnd(blocks, |blocks|) <= PAGE_SIZE
  {
  }

  /** A number as it is stored in a block. */
  function Stored(n: nat): uint16 {
    n % 0x1_0000
  }

  /** The list after a search has found that slot: with the block that the code records, or with the promised one. */
  function Noted(blocks: seq<Block>, slot: Slot, size: nat, asWritten: bool): seq<Block>
    requires slot.index <= |blocks| && PreviousEnd(blocks, slot.index) <= slot.offset
  {
    var offset :=
      if asWritten && slot.index < |blocks| then End(blocks[slot.index]) + (slot.offset - PreviousEnd(blocks, slot.index)) else slot.offset;
    InsertAt(blocks, slot.index, Block(Stored(offset), Stored(size)))
  }

  lemma {:induction false} NotedIsRecorded(blocks: seq<Block>, slot: Slot, size: nat)
    requires Ordered(blocks) && slot.index <= |blocks|
    requires PreviousEnd(blocks, slot.index) <= slot.offset && slot.offset + size <= PAGE_SIZE
    ensures Noted(blocks, slot, size, false) == Record(blocks, slot, size)
    ensures Noted(blocks, slot, size, true) == RecordAsWritten(blocks, slot, size)
  {
    if slot.index == |blocks| {
      assert blocks[..slot.index] == blocks && blocks[slot.index..] == [];
    }
  }

  // ---------------------------------------------------------------- the same memory twice

  lemma {:induction false} SameSlotAgain(base: nat, blocks: seq<Block>, written: seq<Block>, size: nat, alignment: nat, i: nat)
    requires Ordered(blocks) && alignment > 0 && size + alignment <= SIZE_T_MODULUS
    requires i <= |blocks| && FirstFit(base, blocks, size, alignment, i).Some?
    requires var slot := FirstFit(base, blocks, size, alignment, i).value;
             && i <= slot.index < |blocks| && |written| == |blocks| + 1 && written[..slot.index] == blocks[..slot.index]
             && written[slot.index].offset >= blocks[slot.index].offset
    ensures i <= |written| && Scan(base, written, size, alignment, i) == FirstFit(base, blocks, size, alignment, i)
    decreases |blocks| - i
  {
    hide AlignmentCorrection, Ordered, SizeTSum, SizeTDifference, End;
    var slot := FirstFit(base, blocks, size, alignment, i).value;
    GapBefore(blocks, i);
    assert i > 0 ==> written[..slot.index][i - 1] == blocks[..slot.index][i - 1];
    var last := PreviousEnd(blocks, i);
    assert PreviousEnd(written, i) == last;
    SmallSum(size, AlignmentCorrection(base + last, alignment));
    if i < slot.index {
      assert written[..slot.index][i] == blocks[..slot.index][i];
      SmallDifference(blocks[i].offset, last);
      SameSlotAgain(base, blocks, written, size, alignment, i + 1);
    } else {
      SmallDifference(written[i].offset, last);
    }
  }

  /**
   What the code records for a gap lies as far behind the end of the following block as the promised
   memory lies behind the end of the preceding one, and before that block in the list.
   */
  lemma {:induction false} GapIsRecordedBehind(base: nat, blocks: seq<Block>, size: nat, alignment: nat)
    requires Ordered(blocks) && alignment > 0 && !NoGapFits(base, blocks, size, alignment)
    ensures FirstFit(base, blocks, size, alignment, 0).Some?
    ensures var slot := FirstFit(base, blocks, size, alignment, 0).value;
            var written := RecordAsWritten(blocks, slot, size);
            && slot.index < |blocks| && |written| == |blocks| + 1 && written[slot.index].size == size
            && written[slot.index].offset - End(blocks[slot.index]) == slot.offset - PreviousEnd(blocks, slot.index)
            && written[..slot.index] == blocks[..slot.index] && written[slot.index + 1..] == blocks[slot.index..]
  {
    hide FirstFit, GapFits;
    GapIsFound(base, blocks, size, alignment, 0);
    AppendedIffNoGapFits(base, blocks, size, alignment);
  }

  /** With padding: a request for 8 bytes is promised offset 8, 4 bytes behind a block, and recorded 4 bytes behind the next one. */
  lemma {:induction false} PaddedGapExample()
    ensures var blocks := [Block(0, 4), Block(24, 8)];
            && Ordered(blocks) && FirstFit(0, blocks, 8, 8, 0) == Some(Slot(1, 8))
            && RecordAsWritten(blocks, Slot(1, 8), 8) == [Block(0, 4), Block(36, 8), Block(24, 8)]
  {
    var blocks := [Block(0, 4), Block(24, 8)];
    assert FirstFit(0, blocks, 8, 8, 1) == Some(Slot(1, 8));
  }

  /**
   After a request was placed in a gap, and recorded as the code does it, the same request is
   promised the same memory once more.
   */
  lemma {:induction false} GapIsPromisedTwice(base: nat, blocks: seq<Block>, size: nat, alignment: nat)
    requires Ordered(blocks) && alignment > 0 && size + alignment <= SIZE_T_MODULUS
    requires !NoGapFits(base, blocks, size, alignment)
    ensures FirstFit(base, blocks, size, alignment, 0).Some?
    ensures var slot := FirstFit(base, blocks, size, alignment, 0).value;
            Scan(base, RecordAsWritten(blocks, slot, size), size, alignment, 0) == Some(slot)
  {
    hide FirstFit, GapFits, Scan;
    GapIsFound(base, blocks, size, alignment, 0);
    AppendedIffNoGapFits(base, blocks, size, alignment);
    var slot := FirstFit(base, blocks, size, alignment, 0).value;
    WrittenBehind(blocks, slot, size);
    SameSlotAgain(base, blocks, RecordAsWritten(blocks, slot, size), size, alignment, 0);
  }

  lemma {:induction false} WrittenBehind(blocks: seq<Block>, slot: Slot, size: nat)
    requires Ordered(blocks) && slot.index < |blocks|
    requires PreviousEnd(blocks, slot.index) <= slot.offset && slot.offset + size <= PAGE_SIZE
    ensures var written := RecordAsWritten(blocks, slot, size);
            && |written| == |blocks| + 1 && written[..slot.index] == blocks[..slot.index]
            && written[slot.index].offset >= blocks[slot.index].offset
  {
  }

  /** A page with a gap that fits has a place. */
  lemma {:induction false} GapIsFound(base: nat, blocks: seq<Block>, size: nat, alignment: nat, i: nat)
    requires Ordered(blocks) && alignment > 0 && i <= |blocks|
    requires exists k :: i <= k < |blocks| && GapFits(base, blocks, size, alignment, k)
    ensures FirstFit(base, blocks, size, alignment, i).Some?
    decreases |blocks| - i
  {
    hide Ordered, AlignmentCorrection, End;
    var k :| i <= k < |blocks| && GapFits(base, blocks, size, alignment, k);
    if k > i {
      GapIsFound(base, blocks, size, alignment, i + 1);
    }
  }
}
