/**
 The objects that the collector changes in place: handles and pages.
 */
module Handles {
  import opened Wrappers
  import L = Layout
  import O = Objects
  import R = Runs

  /** `object_type` as far as the collector looks at it; `movable` tells that `move` is not null. */
  datatype ObjectType = ObjectType(size: nat, alignment: nat, movable: bool)

  type Byte = b: nat | b < 256

  /** A `page_allocation`; an empty one stands for failure. */
  datatype Span = Span(start: nat, size: nat)

  const EMPTY_SPAN: Span := Span(0, 0)

  /**
   `internal_handle`. The bits of the flag set are kept apart, because updates of different
   flags do not disturb each other; so are the known fields of the object, all elements in
   order, as relocation carries those of an initialized object along.
   */
  class Handle {
    var start: nat
    var size: nat
    var referencedBy: seq<Handle>
    var rootHandleCount: nat
    const objectType: ObjectType
    var markBits: set<nat>

    var uninitialized: bool
    var garbage: bool
    const immovable: bool
    const large: bool
    var initializationFailed: bool

    var fields: seq<Option<Handle>>
    const page: Option<Page>

    /** Destroyed. The write lock that was taken for it is never released. */
    var destroyed: bool

    /** The starting state: one root reference, uninitialized. */
    constructor (allocation: Span, objectType: ObjectType, fieldCount: nat, page: Option<Page>)
      ensures start == allocation.start && size == allocation.size && this.objectType == objectType && this.page == page
      ensures Starting(fieldCount) && immovable == !objectType.movable && large == (allocation.size > L.PAGE_SIZE)
    {
      start, size, this.objectType, this.page := allocation.start, allocation.size, objectType, page;
      referencedBy, rootHandleCount, markBits := [], 1, {};
      uninitialized, garbage, initializationFailed, destroyed := true, false, false, false;
      immovable, large := !objectType.movable, allocation.size > L.PAGE_SIZE;
      fields := seq(fieldCount, i => None);
    }

    ghost predicate Starting(fieldCount: nat)
      reads this
    {
      && referencedBy == [] && rootHandleCount == 1 && markBits == {}
      && uninitialized && !garbage && !initializationFailed && !destroyed
      && fields == seq(fieldCount, i => None)
    }

    /** Neither the `uninitialized` nor the `initialization_failed` flag is set. */
    predicate Initialized()
      reads this`uninitialized, this`initializationFailed
    {
      !(uninitialized || initializationFailed)
    }

    /** Relocation leaves the bytes behind, and yet the fields matter. */
    predicate Fragile()
      reads this`uninitialized, this`initializationFailed, this`fields
    {
      if uninitialized then exists k :: 0 <= k < |fields| && fields[k].Some? else initializationFailed && fields != []
    }

    /** The fields become what lies at the new place. */
    method LoseFields(ghost world: set<Handle>)
      requires this in world
      modifies this`fields
      ensures HeapOf(world) == O.WithFields(old(HeapOf(world)), this, fields)
    {
      hide References, Fields, RootCounts, Flagged, Uninitialized, Tombstones;
      ghost var h := HeapOf(world);
      fields := *;
      assert HeapOf(world).fields == h.fields[this := fields];
    }

    lemma FragileInHeap(world: set<Handle>, failed: set<Handle>)
      requires this in world && (this in failed <==> initializationFailed)
      ensures this in HeapOf(world).fields && (Fragile() <==> O.Fragile(HeapOf(world), failed, this))
    {
      hide References, Fields, RootCounts;
      var h := HeapOf(world);
      assert h.fields[this] == fields;
      assert forall k :: 0 <= k < |fields| && fields[k].Some? ==> h.fields[this][k].value in O.Targets(h, this, 0);
    }

    /** `SetField`; the exceptions of the code are returned. */
    method SetField(field: Option<nat>, newValue: Option<Handle>, ghost world: set<Handle>) returns (error: Option<O.FieldError>)
      requires O.Shaped(HeapOf(world)) && O.Balanced(HeapOf(world)) && this in world
      requires field.Some? ==> field.value < |fields|
      requires newValue.Some? ==> newValue.value in world
      modifies world`referencedBy, world`garbage, this`fields
      ensures field.None? ==> error.None? && HeapOf(world) == old(HeapOf(world))
      ensures field.Some? ==>
                match O.SetField(old(HeapOf(world)), this, field.value, newValue)
                case Ok(h) => error.None? && HeapOf(world) == h
                case Err(e) => error == Some(e) && HeapOf(world) == old(HeapOf(world))
    {
      hide References, Fields, RootCounts;
      error := None;
      if field.None? {
        return;
      }
      ghost var h := HeapOf(world);
      var slot := field.value;
      var oldValue := fields[slot];
      if oldValue == newValue {
        return;
      }
      if newValue.Some? {
        if garbage {
          return Some(O.GarbageOwner);
        }
        if newValue.value.garbage {
          return Some(O.GarbageValue);
        }
        newValue.value.AddReference(this, world);
      }
      assert HeapOf(world) == h.(refs := O.Pushed(h.refs, this, newValue));
      if oldValue.Some? {
        O.OldValueIsAware(h, this, slot);
        oldValue.value.DropReference(this, world);
      }
      Assign(slot, newValue, world);
    }

    /** `internal::Copy`, but for the object lock; a copy for a field or to another pin is refused. */
    method Copy(source: R.Role, target: R.Role, ghost world: set<Handle>) returns (error: Option<R.CopyError>)
      requires this in world
      modifies this`rootHandleCount
      ensures match R.Copy(old(HeapOf(world)), this, source, target)
              case Ok(h) => error.None? && HeapOf(world) == h
              case Err(e) => error == Some(e) && HeapOf(world) == old(HeapOf(world))
    {
      hide HeapOf;
      InHeap(world);
      if target.Field? {
        return Some(R.UseSetField);
      }
      error := None;
      match source {
        case InternalInitialization =>
          if !target.Root? {
            error := Some(R.OnlyForInitialization);
          } else if rootHandleCount != 1 {
            error := Some(R.WrongInitialCount);
          }
        case Root | Field =>
          if !target.InternalInitialization? {
            SetRootCount(rootHandleCount + 1, world);
          }
        case RoPin | RwPin =>
          if target.Root? {
            SetRootCount(rootHandleCount + 1, world);
          } else if !target.InternalInitialization? {
            error := Some(R.InvalidCopy);
          }
      }
    }

    /** `internal::Destroy`, but for the object lock; `upgraded` is the outcome of `TryUpgrade`. */
    method Destroy(role: R.Role, upgraded: bool, ghost world: set<Handle>)
      requires this in world && (role.Root? || role.RoPin? || role.RwPin? ==> rootHandleCount > 0)
      modifies this`rootHandleCount, this`garbage
      ensures HeapOf(world) ==
                if role.Root? || role.RoPin? || role.RwPin? then R.Drop(old(HeapOf(world)), this, upgraded) else old(HeapOf(world))
    {
      hide HeapOf;
      InHeap(world);
      if role.Root? || role.RoPin? || role.RwPin? {
        SetRootCount(rootHandleCount - 1, world);
        if rootHandleCount == 0 && referencedBy == [] && upgraded {
          MarkGarbage(world);
        }
      }
    }

    lemma InHeap(world: set<Handle>)
      requires this in world
      ensures this in HeapOf(world).roots && HeapOf(world).roots[this] == rootHandleCount
      ensures this in HeapOf(world).refs && HeapOf(world).refs[this] == referencedBy
      ensures this in HeapOf(world).fields && HeapOf(world).fields[this] == fields
    {
      hide References, Fields, RootCounts;
    }

    method SetRootCount(count: nat, ghost world: set<Handle>)
      requires this in world
      modifies this`rootHandleCount
      ensures HeapOf(world) == old(HeapOf(world)).(roots := old(HeapOf(world)).roots[this := count]) && rootHandleCount == count
    {
      hide References, Fields, RootCounts, Flagged, Uninitialized, Tombstones;
      rootHandleCount := count;
    }

    /** Sets one known field to null, if it is not null already. */
    method ClearField(k: nat, ghost world: set<Handle>)
      requires O.Shaped(HeapOf(world)) && O.Balanced(HeapOf(world)) && this in world && k < |fields|
      modifies world`referencedBy, world`garbage, this`fields
      ensures O.SetField(old(HeapOf(world)), this, k, None).Ok? && HeapOf(world) == O.SetField(old(HeapOf(world)), this, k, None).value
      ensures O.Shaped(HeapOf(world)) && O.Balanced(HeapOf(world)) && |fields| == |old(fields)|
    {
      O.SetFieldEffect(HeapOf(world), this, k, None);
      if fields[k].Some? {
        var error := SetField(Some(k), None, world);
      }
    }

    /**
     Sets all known fields to null. For each it waits for the write lock of the target, and so
     forever if that is this object, whose lock is taken, a destroyed one, or one in `held`, of which
     this thread has the lock already.
     */
    method ClearFields(held: set<Handle>, ghost world: set<Handle>) returns (finished: bool)
      requires O.Shaped(HeapOf(world)) && O.Balanced(HeapOf(world)) && this in world
      modifies world`referencedBy, world`garbage, this`fields
      ensures finished <==> !O.WaitsFrom(old(HeapOf(world)), this, held, 0)
      ensures finished ==> HeapOf(world) == O.NullFields(old(HeapOf(world)), this, 0)
    {
      hide HeapOf, O.Shaped, O.Balanced, O.WaitsFrom, O.SetField;
      InHeap(world);
      ghost var h := HeapOf(world);
      var k := 0;
      while k < |fields|
        invariant O.Shaped(HeapOf(world)) && O.Balanced(HeapOf(world)) && k <= |fields|
        invariant this in HeapOf(world).fields && HeapOf(world).fields[this] == fields
        invariant O.NullFields(HeapOf(world), this, k) == O.NullFields(h, this, 0)
        invariant O.WaitsFrom(HeapOf(world), this, held, k) <==> O.WaitsFrom(h, this, held, 0)
      {
        O.WaitsStep(HeapOf(world), this, held, k);
        if fields[k].Some? {
          FieldInHeap(k, world);
          if fields[k].value == this || fields[k].value.destroyed || fields[k].value in held {
            return false;
          }
        }
        ClearField(k, world);
        InHeap(world);
        k := k + 1;
      }
      O.NothingLeft(HeapOf(world), this, held, k);
      return true;
    }

    lemma FieldInHeap(k: nat, world: set<Handle>)
      requires O.Shaped(HeapOf(world)) && this in world && k < |fields| && fields[k].Some?
      ensures fields[k].value in world && (fields[k].value.destroyed <==> fields[k].value in HeapOf(world).destroyed)
    {
      hide References, Fields, RootCounts;
    }

    method Assign(slot: nat, newValue: Option<Handle>, ghost world: set<Handle>)
      requires this in world && slot < |fields|
      modifies this`fields
      ensures HeapOf(world) == old(HeapOf(world)).(fields := old(HeapOf(world)).fields[this := old(fields)[slot := newValue]])
    {
      hide References, Fields, RootCounts, Flagged, Uninitialized, Tombstones;
      ghost var h := HeapOf(world);
      fields := fields[slot := newValue];
      assert HeapOf(world).fields == h.fields[this := fields];
    }

    method AddReference(owner: Handle, ghost world: set<Handle>)
      requires this in world
      modifies this`referencedBy
      ensures HeapOf(world) == old(HeapOf(world)).(refs := O.Pushed(old(HeapOf(world)).refs, owner, Some(this)))
    {
      hide References, Fields, RootCounts, Flagged, Uninitialized, Tombstones;
      referencedBy := referencedBy + [owner];
    }

    /** Erases one reference and flags this object if none and no root handle is left. */
    method DropReference(owner: Handle, ghost world: set<Handle>)
      requires this in world && owner in referencedBy
      modifies this`referencedBy, this`garbage
      ensures var h := old(HeapOf(world));
              var refs := O.Erased(h.refs, owner, Some(this));
              HeapOf(world) == h.(refs := refs, flagged := h.flagged + if refs[this] == [] && h.roots[this] == 0 then {this} else {})
    {
      hide HeapOf;
      InHeap(world);
      EraseReference(owner, world);
      InHeap(world);
      if referencedBy == [] && rootHandleCount == 0 {
        MarkGarbage(world);
      }
    }

    method MarkGarbage(ghost world: set<Handle>)
      requires this in world
      modifies this`garbage
      ensures HeapOf(world) == old(HeapOf(world)).(flagged := old(HeapOf(world)).flagged + {this})
    {
      hide References, Fields, RootCounts, Uninitialized, Tombstones;
      garbage := true;
    }

    /** Finds the first `owner` in `referencedBy` and overwrites it with the last entry. */
    method EraseReference(owner: Handle, ghost world: set<Handle>)
      requires this in world && owner in referencedBy
      modifies this`referencedBy
      ensures HeapOf(world) == old(HeapOf(world)).(refs := O.Erased(old(HeapOf(world)).refs, owner, Some(this)))
    {
      hide HeapOf;
      InHeap(world);
      var i := 0;
      while referencedBy[i] != owner
        invariant i < |referencedBy| && owner !in referencedBy[..i]
        decreases |referencedBy| - i
      {
        i := i + 1;
      }
      O.IndexIsFirst(referencedBy, owner, i);
      var last := |referencedBy| - 1;
      SetReferences(referencedBy[i := referencedBy[last]][..last], world);
    }

    method SetReferences(list: seq<Handle>, ghost world: set<Handle>)
      requires this in world
      modifies this`referencedBy
      ensures HeapOf(world) == old(HeapOf(world)).(refs := old(HeapOf(world)).refs[this := list]) && referencedBy == list
    {
      hide References, Fields, RootCounts, Flagged, Uninitialized, Tombstones;
      ghost var h := HeapOf(world);
      referencedBy := list;
      assert HeapOf(world).refs == h.refs[this := list];
    }
  }

  ghost function References(world: set<Handle>): (r: map<Handle, seq<Handle>>)
    reads world`referencedBy
    ensures r.Keys == world && forall h :: h in world ==> r[h] == h.referencedBy
  {
    if world == {} then map[] else var h :| h in world; References(world - {h})[h := h.referencedBy]
  }

  ghost function Fields(world: set<Handle>): (r: map<Handle, seq<Option<Handle>>>)
    reads world`fields
    ensures r.Keys == world && forall h :: h in world ==> r[h] == h.fields
  {
    if world == {} then map[] else var h :| h in world; Fields(world - {h})[h := h.fields]
  }

  ghost function RootCounts(world: set<Handle>): (r: map<Handle, nat>)
    reads world`rootHandleCount
    ensures r.Keys == world && forall h :: h in world ==> r[h] == h.rootHandleCount
  {
    if world == {} then map[] else var h :| h in world; RootCounts(world - {h})[h := h.rootHandleCount]
  }

  ghost function Flagged(world: set<Handle>): set<Handle>
    reads world`garbage
  {
    set h | h in world && h.garbage
  }

  ghost function Uninitialized(world: set<Handle>): set<Handle>
    reads world`uninitialized
  {
    set h | h in world && h.uninitialized
  }

  ghost function Tombstones(world: set<Handle>): set<Handle>
    reads world`destroyed
  {
    set h | h in world && h.destroyed
  }

  /** The objects as a value. */
  ghost function HeapOf(world: set<Handle>): O.Heap<Handle>
    reads world`referencedBy, world`fields, world`rootHandleCount, world`garbage, world`uninitialized, world`destroyed
  {
    O.Heap(
      References(world),
      Fields(world),
      RootCounts(world),
      Flagged(world),
      Uninitialized(world),
      Tombstones(world))
  }

  /** A handle in its starting state extends the heap by a new object. */
  lemma HeapOfMore(world: set<Handle>, handle: Handle, fieldCount: nat)
    requires handle !in world && handle.Starting(fieldCount)
    ensures HeapOf(world + {handle}) == O.Register(HeapOf(world), handle, fieldCount)
  {
    hide References, Fields, RootCounts;
    var h, h' := HeapOf(world), HeapOf(world + {handle});
    assert h'.refs == h.refs[handle := []];
    assert h'.fields == h.fields[handle := seq(fieldCount, i => None)];
    assert h'.roots == h.roots[handle := 1];
  }

  class Page {
    const base: nat
    const memory: array<Byte>
    var allocations: seq<L.Block>

    /** A page in memory that the allocator provided, with nothing allocated on it. */
    constructor (base: nat)
      ensures this.base == base && allocations == [] && fresh(memory) && memory.Length == L.PAGE_SIZE
    {
      this.base, memory, allocations := base, new Byte[L.PAGE_SIZE], [];
    }

    /** `std::ranges::fill` with zeros. */
    method Clear(offset: nat, size: nat)
      requires offset + size <= memory.Length
      modifies memory
      ensures forall k :: 0 <= k < memory.Length ==> memory[k] == if offset <= k < offset + size then 0 else old(memory[k])
    {
      var k := offset;
      while k < offset + size
        invariant offset <= k <= offset + size
        invariant forall j :: 0 <= j < memory.Length ==> memory[j] == if offset <= j < k then 0 else old(memory[j])
      {
        memory[k] := 0;
        k := k + 1;
      }
    }

    /**
     `TryAllocate`, on any list of blocks and for any size. With `asWritten` the gap branch records
     what the code records, else the promised block.
     */
    method TryAllocate(size: L.SizeT, alignment: L.SizeT, asWritten: bool) returns (span: Span)
      requires alignment > 0
      modifies this`allocations
      ensures match L.Scan(base, old(allocations), size, alignment, 0)
              case None => span == EMPTY_SPAN && allocations == old(allocations)
              case Some(slot) =>
                && span == Span(base + slot.offset, size)
                && allocations == L.Noted(old(allocations), slot, size, asWritten)
    {
      hide L.SizeTSum, L.SizeTDifference, L.AlignmentCorrection, L.End, L.Stored;
      var lastAllocationEnd := 0;
      var i := 0;
      ghost var blocks := allocations;
      while i < |allocations|
        invariant i <= |allocations| && allocations == blocks
        invariant lastAllocationEnd == L.PreviousEnd(allocations, i)
        invariant L.Scan(base, allocations, size, alignment, 0) == L.Scan(base, allocations, size, alignment, i)
      {
        var allocation := allocations[i];
        var gap := L.SizeTDifference(allocation.offset, lastAllocationEnd);
        var padding := L.AlignmentCorrection(base + lastAllocationEnd, alignment);
        if gap >= L.SizeTSum(size, padding) {
          var offset := if asWritten then L.End(allocation) + padding else lastAllocationEnd + padding;
          allocations := L.InsertAt(allocations, i, L.Block(L.Stored(offset), L.Stored(size)));
          return Span(base + lastAllocationEnd + padding, size);
        }
        lastAllocationEnd := L.End(allocation);
        i := i + 1;
      }
      var padding := L.AlignmentCorrection(base + lastAllocationEnd, alignment);
      var gap := L.SizeTDifference(L.PAGE_SIZE, lastAllocationEnd);
      if gap >= L.SizeTSum(size, padding) {
        assert allocations[..i] == allocations && allocations[i..] == [];
        allocations := allocations + [L.Block(L.Stored(lastAllocationEnd + padding), L.Stored(size))];
        return Span(base + lastAllocationEnd + padding, size);
      }
      return EMPTY_SPAN;
    }

    /** `RemoveAllocation`; offset and size are cut to the width of `size_type`. */
    method RemoveAllocation(span: Span)
      modifies this`allocations
      ensures allocations == L.Remove(old(allocations), L.Block((span.start - base) % 0x1_0000, span.size % 0x1_0000))
    {
      var b := L.Block((span.start - base) % 0x1_0000, span.size % 0x1_0000);
      var i := 0;
      while i < |allocations| && allocations[i] != b
        invariant i <= |allocations| && b !in allocations[..i]
      {
        i := i + 1;
      }
      if i == |allocations| {
        L.RemoveAbsent(allocations, b);
        return;
      }
      L.RemoveErases(allocations, i);
      allocations := allocations[..i] + allocations[i + 1..];
    }

    /**
     `object_type::move` for one element: the bytes arrive at `to`, and what stays behind at
     `from` is anything.
     */
    method MoveElement(from: nat, to: nat, size: nat)
      requires from + size <= memory.Length && to + size <= from
      modifies memory
      ensures forall k :: to <= k < to + size ==> memory[k] == old(memory[from + (k - to)])
      ensures forall k :: 0 <= k < memory.Length && !(to <= k < to + size) && !(from <= k < from + size) ==> memory[k] == old(memory[k])
    {
      var k := 0;
      while k < size
        invariant k <= size
        invariant forall j :: to <= j < to + k ==> memory[j] == old(memory[from + (j - to)])
        invariant forall j :: from + k <= j < from + size ==> memory[j] == old(memory[j])
        invariant forall j :: 0 <= j < memory.Length && !(to <= j < to + size) && !(from <= j < from + size) ==> memory[j] == old(memory[j])
      {
        memory[to + k] := memory[from + k];
        memory[from + k] := *;
        k := k + 1;
      }
    }

    /**
     The element-wise move of an array down by at least one element: every element arrives as
     it was, although the two arrays may overlap, and nothing outside them changes.
     */
    method MoveElements(from: nat, to: nat, elementSize: nat, count: nat)
      requires elementSize > 0 && from + elementSize * count <= memory.Length && to + elementSize <= from
      modifies memory
      ensures memory[to..to + elementSize * count] == old(memory[from..from + elementSize * count])
      ensures forall k :: 0 <= k < memory.Length && !(to <= k < from + elementSize * count) ==> memory[k] == old(memory[k])
    {
      ghost var total := elementSize * count;
      var i, offset := 0, 0;
      while i < count
        invariant i <= count && offset == elementSize * i && offset <= total
        invariant forall k :: to <= k < to + offset ==> memory[k] == old(memory[from + (k - to)])
        invariant forall k :: from + offset <= k < from + total ==> memory[k] == old(memory[k])
        invariant forall k :: 0 <= k < memory.Length && !(to <= k < from + total) ==> memory[k] == old(memory[k])
      {
        WholeElements(elementSize, i, count);
        MoveElement(from + offset, to + offset, elementSize);
        i, offset := i + 1, offset + elementSize;
      }
    }
  }

  lemma {:induction false} WholeElements(elementSize: nat, i: nat, count: nat)
    requires i < count
    ensures elementSize * i + elementSize == elementSize * (i + 1) <= elementSize * count
  {
    assert elementSize * count == elementSize * (i + 1) + elementSize * (count - i - 1);
  }
}
