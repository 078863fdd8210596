/** One zone of delta lists in one array of bytes (uds/deltaMemory.c, and the bit
    insertion and deletion of uds/deltaIndex.c). */
module DeltaMemory {
  import opened Bits
  import opened DeltaLayout
  import opened DeltaEdit
  import opened DeltaSave
  import opened UdsStatus

  class Zone {
    const memory: array<Byte>
    /** The index number of the first list of the zone. */
    const firstList: nat
    const tag: char
    /** The headers, guards included. */
    var lists: seq<DeltaList>
    /** The transfer flags, one for each real list, and how many are set. */
    var flags: seq<bool>
    var numTransfers: nat
    /** Whether a buffered writer is attached, and what went to it. */
    var writing: bool
    var written: seq<SavedList>
    /** The lists as they were when the save in progress began. */
    ghost var image: seq<seq<bool>>

    ghost predicate Valid()
      reads this, memory
    {
      && Placed() && |flags| == |lists| - 2 && numTransfers == Count(flags)
      && (writing ==> Snapshot(Bits(), flags, tag, firstList, written, image))
    }

    /** The flags are counted, wherever the lists are. */
    ghost predicate Counted()
      reads this
    {
      |lists| >= 3 && |flags| == |lists| - 2 && numTransfers == Count(flags) && memory.Length >= POST_FIELD_GUARD_BYTES
    }

    /** Lists are being read back, and some have not arrived. */
    ghost predicate Restoring()
      reads this`writing, this`numTransfers
    {
      !writing && numTransfers > 0
    }

    ghost predicate Placed()
      reads this`lists, memory
    {
      WellPlaced(lists, memory.Length)
    }

    /** The bits of every list, guards included. */
    ghost function Bits(): (c: seq<seq<bool>>)
      requires Placed()
      reads this`lists, memory
      ensures |c| == |lists|
    {
      Contents(memory[..], lists)
    }

    /** Move the lists first to last to their planned places. */
    method Rebalance(plan: seq<nat>, first: nat, last: nat)
      requires first <= last < |lists| == |plan|
      requires InOrder(lists, first, last, memory.Length) && Planned(lists, plan, first, last, memory.Length)
      modifies this`lists, memory
      ensures Rebalanced(old(memory[..]), memory[..], old(lists), plan, first, last)
      ensures lists == Replaced(old(lists), plan, first, last)
      decreases last - first
    {
      hide Rebalanced, Planned, InOrder, Replaced;
      ghost var ls, m0 := lists, memory[..];
      if first == last {
        MoveList(plan, first);
        return;
      }
      var middle := (first + last) / 2;
      ReplacedHalves(ls, plan, first, middle, last);
      PartPlanned(ls, ls, plan, first, last, middle + 1, last, |m0|);
      PartPlanned(ls, ls, plan, first, last, first, middle, |m0|);
      if plan[middle] > lists[middle].start {
        Rebalance(plan, middle + 1, last);
        ghost var ls1, m1 := lists, memory[..];
        PartPlanned(ls, ls1, plan, first, last, first, middle, |m0|);
        Rebalance(plan, first, middle);
        PartRebalanced(ls, ls1, plan, first, middle, m1, memory[..]);
        UpperHalfFirst(m0, m1, memory[..], ls, plan, first, middle, last);
      } else {
        Rebalance(plan, first, middle);
        ghost var ls1, m1 := lists, memory[..];
        PartPlanned(ls, ls1, plan, first, last, middle + 1, last, |m0|);
        Rebalance(plan, middle + 1, last);
        PartRebalanced(ls, ls1, plan, middle + 1, last, m1, memory[..]);
        LowerHalfFirst(m0, m1, memory[..], ls, plan, first, middle, last);
      }
    }

    /** Move one list, by whole bytes, if its planned place is a new one. */
    method MoveList(plan: seq<nat>, i: nat)
      requires i < |lists| == |plan|
      requires InOrder(lists, i, i, memory.Length) && Planned(lists, plan, i, i, memory.Length)
      modifies this`lists, memory
      ensures Rebalanced(old(memory[..]), memory[..], old(lists), plan, i, i)
      ensures lists == Replaced(old(lists), plan, i, i)
    {
      hide DeltaList.ByteSize;
      var l := lists[i];
      ByteEndIsCeiling(l);
      if l.start != plan[i] {
        ghost var m0, ls := memory[..], lists;
        lists := lists[i := l.(start := plan[i])];
        MoveBytes(memory, plan[i] / 8, l.ByteStart(), l.ByteSize());
        MovedOne(m0, memory[..], ls, plan, i);
      }
    }

    /** The bytes in use by all lists. */
    method UsedSpace() returns (used: nat)
      ensures used == BytesUsed(lists, |lists|)
    {
      used := 0;
      for i := 0 to |lists|
        invariant used == BytesUsed(lists, i)
      {
        used := used + lists[i].ByteSize();
      }
    }

    /** Compute the new offsets of all lists. */
    method MakePlan(spacing: nat, growing: nat, growingSize: nat) returns (plan: seq<nat>)
      requires |lists| >= 3 && lists[|lists| - 1].size <= 8 * memory.Length
      ensures IsExtendPlan(lists, plan, memory.Length, spacing, growing, growingSize)
    {
      hide DeltaList.ByteSize, PlanByte, PlanBit;
      plan := [0];
      PlanSteps(lists, 0, spacing, growing, growingSize);
      for i := 0 to |lists| - 1
        invariant |plan| == i + 1
        invariant forall k :: 0 <= k < i ==> plan[k] == PlanBit(lists, k, spacing, growing, growingSize)
        invariant plan[i] == PlanByte(lists, i, spacing, growing, growingSize)
      {
        PlanSteps(lists, i, spacing, growing, growingSize);
        var next := plan[i] + lists[i].ByteSize() + spacing;
        if i == 0 {
          next := next - spacing / 2;
        }
        if i + 1 == growing {
          next := next + growingSize;
        }
        plan := plan[i := plan[i] * 8 + lists[i].start % 8] + [next];
      }
      plan := plan[|lists| - 1 := memory.Length * 8 - lists[|lists| - 1].size];
    }

    /** Plan new places for all lists, with growingSize more bytes before list
        growing, or fail when the memory is too small. */
    method PlanExtend(growing: nat, growingSize: nat) returns (ok: bool, plan: seq<nat>)
      requires Framed(lists, memory.Length)
      ensures ok == (growingSize + BytesUsed(lists, |lists|) <= memory.Length)
      ensures ok ==> IsRoomyPlan(lists, plan, memory.Length, growing, growingSize)
    {
      hide Planned, PlanByte, BytesUsed, DeltaList.ByteSize;
      var usedSpace := UsedSpace();
      usedSpace := growingSize + usedSpace;
      if memory.Length < usedSpace {
        return false, [];
      }
      var spacing := (memory.Length - usedSpace) / (|lists| - 2);
      plan := MakePlan(spacing, growing, growingSize);
      ExtendPlanIsPlanned(lists, plan, memory.Length, spacing, growing, growingSize);
      ok := true;
    }

    /** Rebalance all lists, making room before list growing. No list changes. */
    method Extend(growing: nat, growingSize: nat) returns (status: Status)
      requires Placed() && 1 <= growing < |lists|
      modifies this`lists, memory
      ensures status == if growingSize + BytesUsed(old(lists), |old(lists)|) <= memory.Length then Success else Overflow
      ensures Placed() && |lists| == old(|lists|) && Bits() == old(Bits())
      ensures forall i :: 0 <= i < |lists| ==> lists[i] == old(lists)[i].(start := lists[i].start)
      ensures status.Overflow? ==> lists == old(lists) && memory[..] == old(memory[..])
      ensures status.Success? ==> lists[growing - 1].End() + 8 * growingSize <= lists[growing].start
    {
      hide WellPlaced, Planned, InOrder, Rebalanced, BytesUsed, Contents;
      WellPlacedBasics(lists, memory.Length);
      var ok, plan := PlanExtend(growing, growingSize);
      if !ok {
        return Overflow;
      }
      ghost var ls, m0 := lists, memory[..];
      Rebalance(plan, 1, |lists| - 1);
      RebalancedContents(m0, memory[..], ls, plan, lists);
      RoomyGap(ls, plan, lists, |m0|, growing, growingSize);
      return Success;
    }

    /** Free bits before and after a list. */
    function FreeBefore(i: nat): int
      requires 1 <= i < |lists|
      reads this`lists
    {
      lists[i].start - lists[i - 1].End()
    }

    /** Find size free bits next to list i, rebalancing the lists if there are too
        few on either side, and say whether to take those before it. */
    method FindRoom(i: nat, offset: nat, size: nat) returns (status: Status, beforeFlag: bool)
      requires Placed() && 1 <= i < |lists| - 1 && offset <= lists[i].size
      modifies this`lists, memory
      ensures Placed() && |lists| == old(|lists|) && Bits() == old(Bits())
      ensures status.Success? || status.Overflow?
      ensures status.Success? <==> CanGrow(old(lists), memory.Length, i, size)
      ensures status.Overflow? ==> lists == old(lists) && memory[..] == old(memory[..])
      ensures status.Success? ==> size <= if beforeFlag then FreeBefore(i) else FreeBefore(i + 1)
      ensures forall j :: 0 <= j < |lists| ==> lists[j] == old(lists)[j].(start := lists[j].start)
    {
      hide WellPlaced, BytesUsed, Contents;
      var beforeSize, afterSize := offset, lists[i].size - offset;
      if lists[i].size + size > UINT16_MAX {
        return Overflow, false;
      }
      var freeBefore, freeAfter := FreeBefore(i), FreeBefore(i + 1);
      status := Success;
      if size <= freeBefore && size <= freeAfter {
        beforeFlag := if beforeSize < afterSize then true
                      else if afterSize < beforeSize then false
                      else freeBefore > freeAfter;
      } else if size <= freeBefore {
        beforeFlag := true;
      } else if size <= freeAfter {
        beforeFlag := false;
      } else {
        beforeFlag := beforeSize < afterSize;
        status := Extend(if beforeFlag then i else i + 1, (size + 7) / 8);
      }
    }

    /** Make room for size bits at an offset of list i, or change nothing. */
    method InsertBits(i: nat, offset: nat, size: nat) returns (status: Status)
      requires Placed() && 1 <= i < |lists| - 1 && offset <= lists[i].size
      modifies this`lists, memory
      ensures Placed() && |lists| == old(|lists|)
      ensures status.Success? || status.Overflow?
      ensures status.Success? <==> CanGrow(old(lists), memory.Length, i, size)
      ensures status.Overflow? ==> lists == old(lists) && memory[..] == old(memory[..])
      ensures status.Success? ==>
        && Opened(old(Bits())[i], Bits()[i], offset, size)
        && (forall j :: 0 <= j < |lists| && j != i ==> Bits()[j] == old(Bits())[j])
      ensures SameSearch(old(lists), lists)
    {
      hide WellPlaced, BytesUsed, Opened, Contents, Stream, Splice, Guarded;
      var beforeFlag;
      status, beforeFlag := FindRoom(i, offset, size);
      if status.Overflow? {
        return;
      }
      ghost var ls, m0 := lists, memory[..];
      WellPlacedList(ls, |m0|, i);
      var l := lists[i];
      if beforeFlag {
        MoveBits(memory, l.start, memory, l.start - size, offset);
        lists := GrowBefore(lists, i, size);
        OpenBefore(m0, memory[..], ls, i, offset, size);
        OpenedLists(m0, memory[..], ls, lists, i);
      } else {
        MoveBits(memory, l.start + offset, memory, l.start + offset + size, l.size - offset);
        lists := GrowAfter(lists, i, size);
        OpenAfter(m0, memory[..], ls, i, offset, size);
        OpenedLists(m0, memory[..], ls, lists, i);
      }
    }

    /** Delete size bits at an offset of list i. */
    method DeleteBits(i: nat, offset: nat, size: nat)
      requires Placed() && 1 <= i < |lists| - 1 && offset + size <= lists[i].size
      modifies this`lists, memory
      ensures Placed() && |lists| == old(|lists|)
      ensures Bits() == old(Bits())[i := old(Bits())[i][..offset] + old(Bits())[i][offset + size..]]
      ensures SameSearch(old(lists), lists)
    {
      hide WellPlaced, Contents, Stream, Splice, Guarded;
      WellPlacedList(lists, memory.Length, i);
      ghost var ls, m0 := lists, memory[..];
      var l := lists[i];
      var beforeSize, afterSize := offset, l.size - offset - size;
      var beforeFlag := if beforeSize < afterSize then true
                        else if afterSize < beforeSize then false
                        else FreeBefore(i) < FreeBefore(i + 1);
      if beforeFlag {
        MoveBits(memory, l.start, memory, l.start + size, beforeSize);
        lists := lists[i := l.(start := l.start + size, size := l.size - size)];
        CloseBefore(m0, memory[..], ls, i, offset, size);
      } else {
        MoveBits(memory, l.start + offset + size, memory, l.start + offset, afterSize);
        lists := lists[i := l.(size := l.size - size)];
        CloseAfter(m0, memory[..], ls, i, offset, size);
      }
    }

    // ------------------------------------------------ saving and restoring

    /** Create a zone of empty lists. */
    constructor (size: nat, firstList: nat, numLists: nat, tag: char)
      requires size >= POST_FIELD_GUARD_BYTES && numLists > 0
      ensures Valid() && !writing && !Restoring() && fresh(memory) && memory.Length == size
      ensures this.firstList == firstList && this.tag == tag && |lists| == numLists + 2
      ensures Empty() && lists == EmptyHeaders(size, numLists)
    {
      memory := new Byte[size];
      this.firstList, this.tag := firstList, tag;
      lists := EmptyHeaders(size, numLists);
      flags, numTransfers := seq(numLists, _ => false), 0;
      writing, written := false, [];
      image := [];
      new;
      EmptyHeadersPlaced(size, numLists);
      CountZero(flags);
      FillBits(memory, 8 * (size - POST_FIELD_GUARD_BYTES), GUARD_BITS, true);
    }

    /** Every real list is empty, and nothing is remembered of earlier searches. */
    ghost predicate Empty()
      reads this`lists
    {
      forall i :: 1 <= i < |lists| - 1 ==> lists[i].size == 0 && lists[i].saveOffset == 0 && lists[i].saveKey == 0
    }

    /** Empty all lists and spread them evenly. Lists that a save in progress has not
        written are lost to it, so the save stays good if and only if there are none. */
    method Clear()
      requires Counted() && (writing ==> Valid())
      modifies this`lists, memory
      ensures Placed() && Counted() && Empty() && |lists| == old(|lists|)
      ensures lists == EmptyHeaders(memory.Length, |lists| - 2)
      ensures Valid() <==> !writing || numTransfers == 0
    {
      hide Stream, Splice, Contents, Snapshot, EmptyHeaders, WellPlaced;
      ghost var was := if writing then Bits() else [];
      var n := |lists| - 2;
      lists := EmptyHeaders(memory.Length, n);
      EmptyHeadersPlaced(memory.Length, n);
      FillBits(memory, 8 * (memory.Length - POST_FIELD_GUARD_BYTES), GUARD_BITS, true);
      CountZero(flags);
      if writing {
        ClearedSnapshot(was, memory[..], lists, flags, tag, firstList, written, image);
      }
    }

    /** Give up reading lists back. */
    method AbortRestoring()
      requires Counted() && !writing
      modifies this`lists, this`flags, this`numTransfers, memory
      ensures Valid() && Empty() && !Restoring() && |lists| == old(|lists|)
    {
      flags, numTransfers := seq(|flags|, _ => false), 0;
      CountZero(flags);
      Clear();
    }

    ghost function Used(): nat
      reads this
    {
      if |lists| < 2 then 0 else SizeSum(lists[1..|lists| - 1])
    }

    /** The number of bits in all real lists. */
    method BitsUsed() returns (bits: nat)
      requires |lists| >= 2
      ensures bits == Used()
    {
      bits := 0;
      for i := 1 to |lists| - 1
        invariant bits == SizeSum(lists[1..i])
      {
        assert lists[1..i + 1][..|lists[1..i + 1]| - 1] == lists[1..i];
        bits := bits + lists[i].size;
      }
    }

    /** Flag the lists that are not empty, and count them. */
    method FlagNonEmptyLists()
      requires |lists| >= 2
      modifies this`flags, this`numTransfers
      ensures |flags| == |lists| - 2 && numTransfers == Count(flags)
      ensures forall k :: 0 <= k < |flags| ==> flags[k] == (lists[k + 1].size > 0)
    {
      flags, numTransfers := seq(|lists| - 2, _ => false), 0;
      CountZero(flags);
      for k := 0 to |lists| - 2
        invariant |flags| == |lists| - 2 && numTransfers == Count(flags)
        invariant forall j :: 0 <= j < |flags| ==> flags[j] == (j < k && lists[j + 1].size > 0)
      {
        if lists[k + 1].size > 0 {
          CountUpdate(flags, k, true);
          flags, numTransfers := flags[k := true], numTransfers + 1;
        }
      }
    }

    /** Begin an incremental save: from here on the image is what gets saved. */
    method StartSaving()
      requires Valid() && !writing && !Restoring()
      modifies this`flags, this`numTransfers, this`writing, this`written, this`image
      ensures Valid() && writing && written == []
      ensures |image| == |lists| - 2 && forall k :: 0 <= k < |image| ==> image[k] == Bits()[k + 1]
    {
      FlagNonEmptyLists();
      writing, written := true, [];
      image := Bits()[1..|lists| - 1];
    }

    /** Write a list that is flagged, before its first change. */
    method LazyFlush(k: nat)
      requires Valid() && !Restoring() && k < |flags|
      modifies this`flags, this`numTransfers, this`written
      ensures Valid() && !Restoring() && flags == old(flags)[k := false]
      ensures !old(flags[k]) ==> written == old(written)
    {
      hide Snapshot, WellPlaced, Contents, Holds;
      CountZero(flags);
      if flags[k] {
        var l := lists[k + 1];
        assert l.End() <= 8 * memory.Length && l.ByteEnd() <= memory.Length by {
          WellPlacedList(lists, memory.Length, k + 1);
          ByteEndIsCeiling(l);
        }
        CountUpdate(flags, k, false);
        var data := memory[l.ByteStart()..l.ByteEnd()];
        var r := SavedList(tag, l.start % 8, l.ByteSize(), firstList + k, data);
        FlushedHolds(memory[..], l, r);
        SnapshotFlush(Bits(), flags, tag, firstList, written, image, k, r);
        flags, numTransfers := flags[k := false], numTransfers - 1;
        written := written + [r];
      }
    }

    /** Write what is left, and report an error if not all lists were written. */
    method FinishSaving() returns (status: Status)
      requires Valid() && writing
      modifies this`flags, this`numTransfers, this`written, this`writing
      ensures Valid() && !writing && numTransfers == 0 && status.Success?
      ensures Complete(tag, firstList, written, image)
    {
      hide Snapshot, WellPlaced, Contents;
      var i := 0;
      while numTransfers != 0 && i < |flags|
        invariant Valid() && writing && i <= |flags| && |flags| == old(|flags|)
        invariant forall k :: 0 <= k < i ==> !flags[k]
        decreases |flags| - i
      {
        LazyFlush(i);
        i := i + 1;
      }
      CountZero(flags);
      status := if numTransfers > 0 then CorruptData else Success;
      writing := false;
      SnapshotDone(Bits(), flags, tag, firstList, written, image);
    }

    /** Drop a save in progress. */
    method AbortSaving()
      requires Valid() && writing
      modifies this`flags, this`numTransfers, this`writing
      ensures Valid() && !writing && numTransfers == 0
    {
      hide Snapshot, WellPlaced, Contents;
      flags, numTransfers, writing := seq(|flags|, _ => false), 0, false;
      CountZero(flags);
    }

    /** Give the empty lists their sizes and spread them out, to receive data. The
        result is success even when the lists do not fit: then nothing is flagged. */
    method StartRestoring(sizes: seq<nat>) returns (status: Status)
      requires Valid() && !writing && !Restoring() && Empty()
      requires |sizes| == |lists| - 2 && forall k :: 0 <= k < |sizes| ==> sizes[k] <= UINT16_MAX
      modifies this`lists, this`flags, this`numTransfers, memory
      ensures status.Success? && Counted()
      ensures |lists| == old(|lists|) && forall k :: 0 <= k < |sizes| ==> IsNewList(lists, k, sizes[k])
      ensures var fits := BytesUsed(Sized(old(lists), sizes), |lists|) <= memory.Length;
        if fits then
          Valid() && forall k :: 0 <= k < |flags| ==> flags[k] == (sizes[k] > 0)
        else
          && flags == old(flags) && numTransfers == 0 && memory[..] == old(memory[..])
          && lists == Sized(old(lists), sizes) && (Valid() <==> WellPlaced(lists, memory.Length))
    {
      hide Planned, BytesUsed, Contents, WellPlaced, Framed, Sized, IsRoomyPlan, Snapshot;
      SizedFramed(lists, sizes, memory.Length);
      lists := Sized(lists, sizes);
      ghost var sized := lists;
      var ok, plan := PlanExtend(0, 0);
      if ok {
        SpreadOut(plan);
      }
      forall k | 0 <= k < |sizes|
        ensures IsNewList(lists, k, sizes[k])
      {
        assert sized[k + 1] == old(lists)[k + 1].(size := sizes[k]);
        assert lists[k + 1] == sized[k + 1].(start := lists[k + 1].start);
      }
      return Success;
    }

    /** Move the headers to their planned places, set the guard, and flag the lists. */
    method SpreadOut(plan: seq<nat>)
      requires Framed(lists, memory.Length) && |flags| == |lists| - 2 &&
        IsRoomyPlan(lists, plan, memory.Length, 0, 0) && !writing
      modifies this`lists, this`flags, this`numTransfers, memory
      ensures Valid() && |lists| == old(|lists|)
      ensures forall i :: 0 <= i < |lists| ==> lists[i] == old(lists)[i].(start := lists[i].start)
      ensures forall k :: 0 <= k < |flags| ==> flags[k] == (lists[k + 1].size > 0)
    {
      hide Planned, Contents, WellPlaced, Framed, IsRoomyPlan, Snapshot;
      ghost var ls := lists;
      RoomyIsPlanned(ls, plan, memory.Length);
      lists := MovedTo(lists, plan);
      PlanIsInOrder(ls, plan, lists, memory.Length);
      TailInside(lists, memory.Length);
      var tail := lists[|lists| - 1];
      FillBits(memory, tail.start, tail.size, true);
      FlagNonEmptyLists();
    }

    /** Put a saved list in its place. Only a list that is still awaited, with data
        of the right size, is accepted. */
    method RestoreList(r: SavedList, buffer: array<Byte>) returns (status: Status)
      requires Counted() && !writing && (numTransfers > 0 ==> Valid())
      requires buffer != memory && r.bitOffset < 8
      requires r.byteCount == |r.data| && r.byteCount + POST_FIELD_GUARD_BYTES <= buffer.Length &&
        r.data == buffer[..r.byteCount]
      modifies this`flags, this`numTransfers, memory
      ensures Counted() && (old(Valid()) ==> Valid()) && (status.Success? ==> old(Valid()))
      ensures status.Success? <==>
        && firstList <= r.index < firstList + |old(flags)| && old(flags)[r.index - firstList]
        && r.byteCount == (r.bitOffset + lists[r.index - firstList + 1].size + 7) / 8
      ensures status.Success? ==>
        && var k := r.index - firstList;
        && flags == old(flags)[k := false] && numTransfers == old(numTransfers) - 1
        && Holds(r, Bits()[k + 1]) && Bits() == old(Bits())[k + 1 := Bits()[k + 1]]
      ensures !status.Success? ==>
        status.CorruptComponent? && flags == old(flags) && numTransfers == old(numTransfers) &&
          memory[..] == old(memory[..])
    {
      hide Snapshot, WellPlaced, Contents, Stream, Splice, Guarded;
      if r.index < firstList || r.index - firstList >= |flags| {
        return CorruptComponent;
      }
      var k := r.index - firstList;
      if !flags[k] {
        return CorruptComponent;
      }
      var l := lists[k + 1];
      var byteCount := (r.bitOffset + l.size + 7) / 8;
      if r.byteCount != byteCount {
        return CorruptComponent;
      }
      ghost var m0 := memory[..];
      CountZero(flags);
      WellPlacedList(lists, memory.Length, k + 1);
      assert Guarded(buffer.Length, r.bitOffset, l.size) by {
        BufferGuarded(buffer.Length, r.bitOffset, l.size, byteCount);
      }
      MoveBits(buffer, r.bitOffset, memory, l.start, l.size);
      RestoredHolds(m0, memory[..], lists, k + 1, r, buffer[..]);
      CountUpdate(flags, k, false);
      flags, numTransfers := flags[k := false], numTransfers - 1;
      return Success;
    }

    /** All lists have arrived. */
    predicate TransfersDone()
      reads this`numTransfers
    {
      numTransfers == 0
    }
  }

  /** Real list k has the given size, and nothing is remembered of it. */
  ghost predicate IsNewList(ls: seq<DeltaList>, k: nat, size: nat)
  {
    k + 1 < |ls| && ls[k + 1].size == size && ls[k + 1].saveOffset == 0 && ls[k + 1].saveKey == 0
  }

  /** Emptying the lists keeps the invariant of a save if and only if no list is
      still to be written. */
  lemma ClearedSnapshot(was: seq<seq<bool>>, m: seq<Byte>, ls: seq<DeltaList>, flags: seq<bool>, tag: char,
      firstList: nat, written: seq<SavedList>, image: seq<seq<bool>>)
    requires Snapshot(was, flags, tag, firstList, written, image) && WellPlaced(ls, |m|) && |ls| == |was|
    requires forall i :: 1 <= i < |ls| - 1 ==> ls[i].size == 0
    ensures Snapshot(Contents(m, ls), flags, tag, firstList, written, image) <==> Count(flags) == 0
  {
    CountZero(flags);
    if Count(flags) == 0 {
      SnapshotKept(was, Contents(m, ls), flags, tag, firstList, written, image);
    } else {
      var k :| 0 <= k < |flags| && flags[k];
      assert |Contents(m, ls)[k + 1]| == ls[k + 1].size == 0 && image[k] != [];
    }
  }

  /** A list of 16 bits does not fit into a zone of eight bytes, seven of which are the
      guard: the restore begins with success, waits for nothing, and leaves the list
      across the guard. */
  method StartTooLarge() returns (zone: Zone, status: Status)
    ensures status.Success? && zone.TransfersDone() && |zone.lists| == 3 && zone.lists[1].size == 16 && !zone.Valid()
  {
    hide EmptyHeaders, Snapshot, Sized, BytesUsed, WellPlaced;
    zone := new Zone(8, 0, 1, 'm');
    LargeList();
    status := zone.StartRestoring([16]);
    assert IsNewList(zone.lists, 0, [16][0]);
  }

  /** A list of four bits that a save has not written is emptied: the save is spoilt. */
  method ClearWhileSaving() returns (zone: Zone)
    ensures zone.writing && |zone.image| == 1 && |zone.image[0]| == 4 && zone.Placed() && zone.Empty() && !zone.Valid()
  {
    hide EmptyHeaders, BytesUsed, WellPlaced, Contents, ListBits, CanGrow, Snapshot, Count;
    zone := new Zone(8, 0, 1, 'm');
    RoomForFour();
    ghost var before := zone.Bits();
    assert before[1] == [] by { EmptyBits(zone); }
    var status := zone.InsertBits(1, 0, 4);
    zone.StartSaving();
    NoneWrittenYet(zone.Bits(), zone.flags, zone.tag, zone.firstList, zone.image);
    zone.Clear();
  }

  lemma RoomForFour()
    ensures CanGrow(EmptyHeaders(8, 1), 8, 1, 4)
  {
    LargeList();
  }

  lemma EmptyBits(zone: Zone)
    requires zone.Placed() && zone.Empty() && |zone.lists| > 2
    ensures zone.Bits()[1] == []
  {
    hide WellPlaced;
  }

  /** As long as nothing has been written, a list that was not empty is awaited. */
  lemma NoneWrittenYet(bits: seq<seq<bool>>, flags: seq<bool>, tag: char, firstList: nat, image: seq<seq<bool>>)
    requires Snapshot(bits, flags, tag, firstList, [], image) && |flags| == 1 && image[0] != []
    ensures Count(flags) > 0
  {
    assert !IsWritten([], firstList + 0);
    assert flags[0] && flags[1..] == [];
  }

  lemma LargeList()
    ensures EmptyHeaders(8, 1) == [DeltaList(0, 0, 0, 0), DeltaList(4, 0, 0, 0), DeltaList(8, 56, 0, 0)]
    ensures var ls := Sized(EmptyHeaders(8, 1), [16]);
      BytesUsed(ls, 3) == 10 && ls == [DeltaList(0, 0, 0, 0), DeltaList(4, 16, 0, 0), DeltaList(8, 56, 0, 0)] &&
        !WellPlaced(ls, 8)
  {
    var ls := Sized(EmptyHeaders(8, 1), [16]);
    assert ls == [DeltaList(0, 0, 0, 0), DeltaList(4, 16, 0, 0), DeltaList(8, 56, 0, 0)];
    assert BytesUsed(ls, 0) == 0 && BytesUsed(ls, 1) == 0 && BytesUsed(ls, 2) == 3;
    assert ls[1].End() > ls[2].start;
  }

  /** The remembered search positions are the same. */
  ghost predicate SameSearch(before: seq<DeltaList>, after: seq<DeltaList>) {
    && |before| == |after|
    && forall j :: 0 <= j < |before| ==>
         after[j].saveOffset == before[j].saveOffset && after[j].saveKey == before[j].saveKey
  }

  lemma OpenedLists(m0: seq<Byte>, m1: seq<Byte>, ls: seq<DeltaList>, after: seq<DeltaList>, i: nat)
    requires WellPlaced(ls, |m0|) && WellPlaced(after, |m1|) && |after| == |ls| && |m0| == |m1| && i < |ls|
    requires forall j :: 0 <= j < |ls| && j != i ==> after[j] == ls[j] && ListBits(m1, ls[j]) == ListBits(m0, ls[j])
    ensures forall j :: 0 <= j < |ls| && j != i ==> Contents(m1, after)[j] == Contents(m0, ls)[j]
  {
  }

  /** A plan that leaves growingSize whole bytes free before list growing. */
  ghost predicate IsRoomyPlan(ls: seq<DeltaList>, plan: seq<nat>, length: nat, growing: nat, growingSize: nat)
  {
    && |plan| == |ls| >= 1
    && Planned(ls, plan, 1, |ls| - 1, length) && plan[|ls| - 1] == ls[|ls| - 1].start
    && (1 <= growing < |ls| ==>
          plan[growing - 1] / 8 + ls[growing - 1].ByteSize() + growingSize <= plan[growing] / 8)
  }

  lemma RoomyGap(ls: seq<DeltaList>, plan: seq<nat>, after: seq<DeltaList>, length: nat, growing: nat, growingSize: nat)
    requires Framed(ls, length) && IsRoomyPlan(ls, plan, length, growing, growingSize)
    requires 1 <= growing < |ls| == |after|
    requires after[0] == ls[0] && forall i :: 1 <= i < |ls| ==> after[i] == ls[i].(start := plan[i])
    ensures after[growing - 1].End() + 8 * growingSize <= after[growing].start
  {
    hide DeltaList.ByteSize;
    if growing > 1 {
      PlannedEnd(ls[growing - 1], plan[growing - 1]);
    }
  }

  lemma SizedFramed(ls: seq<DeltaList>, sizes: seq<nat>, length: nat)
    requires WellPlaced(ls, length) && |sizes| + 2 == |ls| && forall k :: 0 <= k < |sizes| ==> sizes[k] <= UINT16_MAX
    ensures Framed(Sized(ls, sizes), length) && |ls| >= 3 && length >= POST_FIELD_GUARD_BYTES
    ensures forall k :: 0 <= k < |sizes| ==> Sized(ls, sizes)[k + 1] == ls[k + 1].(size := sizes[k])
  {
  }

  lemma SizedNothing(ls: seq<DeltaList>, sizes: seq<nat>)
    requires |sizes| + 2 == |ls| && forall i :: 1 <= i < |ls| - 1 ==> ls[i].size == 0
    requires forall k :: 0 <= k < |sizes| ==> sizes[k] == 0
    ensures Sized(ls, sizes) == ls
  {
    forall i | 0 <= i < |ls|
      ensures Sized(ls, sizes)[i] == ls[i]
    {
      assert 1 <= i <= |sizes| ==> sizes[i - 1] == 0;
    }
  }

  lemma RoomyIsPlanned(ls: seq<DeltaList>, plan: seq<nat>, length: nat)
    requires IsRoomyPlan(ls, plan, length, 0, 0)
    ensures |plan| == |ls| >= 1 && Planned(ls, plan, 1, |ls| - 1, length) && plan[|ls| - 1] == ls[|ls| - 1].start
  {
  }

  lemma TailInside(ls: seq<DeltaList>, length: nat)
    requires WellPlaced(ls, length)
    ensures |ls| >= 3 && ls[|ls| - 1].End() == 8 * length
  {
  }

  lemma PlanSteps(ls: seq<DeltaList>, i: nat, spacing: nat, growing: nat, growingSize: nat)
    requires i < |ls|
    ensures var at := PlanByte(ls, i, spacing, growing, growingSize);
      && (i == 0 ==> at == 0) && PlanBit(ls, i, spacing, growing, growingSize) == at * 8 + ls[i].start % 8
      && PlanByte(ls, i + 1, spacing, growing, growingSize) == at + ls[i].ByteSize() + spacing
        - (if i == 0 then spacing / 2 else 0) + (if i + 1 == growing then growingSize else 0)
  {
    hide DeltaList.ByteSize;
  }

  lemma WellPlacedBasics(ls: seq<DeltaList>, length: nat)
    requires WellPlaced(ls, length)
    ensures Framed(ls, length)
    ensures InOrder(ls, 1, |ls| - 1, length)
  {
  }

  lemma MovedOne(m0: seq<Byte>, m1: seq<Byte>, ls: seq<DeltaList>, plan: seq<nat>, i: nat)
    requires i < |ls| == |plan| && ls[i].ByteEnd() <= |m0| && plan[i] / 8 + ls[i].ByteSize() <= |m0|
    requires m1 == Splice(m0, plan[i] / 8, m0[ls[i].ByteStart()..ls[i].ByteEnd()])
    ensures Rebalanced(m0, m1, ls, plan, i, i)
  {
    SpliceHolds(m0, plan[i] / 8, m0[ls[i].ByteStart()..ls[i].ByteEnd()]);
  }

  /** memmove within one array. */
  method MoveBytes(a: array<Byte>, to: nat, from: nat, n: nat)
    requires to + n <= a.Length && from + n <= a.Length
    modifies a
    ensures a[..] == Splice(old(a[..]), to, old(a[from..from + n]))
  {
    forall k | 0 <= k < n {
      a[to + k] := a[from + k];
    }
  }

  function SizeSum(ls: seq<DeltaList>): nat {
    if ls == [] then 0 else SizeSum(ls[..|ls| - 1]) + ls[|ls| - 1].size
  }

  function Slot(spacing: nat, i: nat): nat {
    spacing / 2 + i * spacing
  }

  /** The evenly spaced headers of empty lists. */
  function EmptyHeaders(size: nat, numLists: nat): seq<DeltaList>
    requires size >= POST_FIELD_GUARD_BYTES && numLists > 0
  {
    SpreadHeaders(size, numLists, (8 * size - GUARD_BITS) / numLists)
  }

  function SpreadHeaders(size: nat, numLists: nat, spacing: nat): (ls: seq<DeltaList>)
    requires size >= POST_FIELD_GUARD_BYTES
    ensures |ls| == numLists + 2
  {
    seq(numLists + 2, i requires 0 <= i < numLists + 2 =>
      if i == 0 then DeltaList(0, 0, 0, 0)
      else if i <= numLists then DeltaList(Slot(spacing, i - 1), 0, 0, 0)
      else DeltaList(8 * size - GUARD_BITS, GUARD_BITS, 0, 0))
  }

  lemma EmptyHeadersPlaced(size: nat, numLists: nat)
    requires size >= POST_FIELD_GUARD_BYTES && numLists > 0
    ensures WellPlaced(EmptyHeaders(size, numLists), size) && |EmptyHeaders(size, numLists)| == numLists + 2
    ensures forall i :: 1 <= i <= numLists ==>
      var l := EmptyHeaders(size, numLists)[i]; l.size == 0 && l.saveOffset == 0 && l.saveKey == 0
  {
    hide Slot;
    var spacing := (8 * size - GUARD_BITS) / numLists;
    Quotient(8 * size - GUARD_BITS, numLists);
    var ls := SpreadHeaders(size, numLists, spacing);
    forall i, j | 0 <= i < j < |ls|
      ensures ls[i].End() <= ls[j].start
    {
      if i > 0 {
        SlotsInOrder(spacing, i - 1, if j <= numLists then j - 1 else numLists, numLists, 8 * size - GUARD_BITS);
      }
    }
    forall i | 0 <= i < |ls|
      ensures ls[i].End() <= 8 * size
    {
      if 0 < i <= numLists {
        SlotsInOrder(spacing, i - 1, numLists, numLists, 8 * size - GUARD_BITS);
      }
    }
  }

  lemma SlotsInOrder(spacing: nat, i: nat, j: nat, n: nat, limit: nat)
    requires i < j <= n && n * spacing <= limit
    ensures Slot(spacing, i) <= Slot(spacing, j)
    ensures Slot(spacing, i) <= limit
  {
    Multiples(i + 1, j, spacing);
    Multiples(j, n, spacing);
    assert (i + 1) * spacing == i * spacing + spacing;
  }

  lemma Multiples(a: nat, b: nat, n: nat)
    requires a <= b
    ensures a * n <= b * n
  {
  }

  /** The headers with new sizes for the real lists. */
  function Sized(ls: seq<DeltaList>, sizes: seq<nat>): (r: seq<DeltaList>)
    requires |sizes| + 2 == |ls|
    ensures |r| == |ls|
  {
    seq(|ls|, i requires 0 <= i < |ls| => if 1 <= i <= |sizes| then ls[i].(size := sizes[i - 1]) else ls[i])
  }

  /** The headers at their planned places. */
  function MovedTo(ls: seq<DeltaList>, plan: seq<nat>): (r: seq<DeltaList>)
    requires |plan| == |ls| > 0
    ensures |r| == |ls| && r[0] == ls[0] && forall i :: 1 <= i < |ls| ==> r[i] == ls[i].(start := plan[i])
  {
    seq(|ls|, i requires 0 <= i < |ls| => if i == 0 then ls[0] else ls[i].(start := plan[i]))
  }

  /** The whole bytes of a list hold its bits. */
  lemma FlushedHolds(m: seq<Byte>, l: DeltaList, r: SavedList)
    requires l.End() <= 8 * |m| && l.ByteEnd() <= |m|
    requires r.bitOffset == l.start % 8 && r.byteCount == l.ByteSize() && r.data == m[l.ByteStart()..l.ByteEnd()]
    ensures Holds(r, ListBits(m, l))
  {
    hide Stream;
    StreamSlice(m, l.ByteStart(), l.ByteEnd());
    SubSlice(Stream(m), 8 * l.ByteStart(), 8 * l.ByteEnd(), r.bitOffset, r.bitOffset + l.size);
  }

  lemma BufferGuarded(length: nat, offset: nat, size: nat, byteCount: nat)
    requires byteCount == (offset + size + 7) / 8 && byteCount + POST_FIELD_GUARD_BYTES <= length
    ensures Guarded(length, offset, size)
  {
  }

  lemma SpliceAll(s: seq<bool>, w: seq<bool>)
    requires |w| == |s|
    ensures Splice(s, 0, w) == w
  {
  }

  lemma RestoredHolds(m0: seq<Byte>, m1: seq<Byte>, ls: seq<DeltaList>, i: nat, r: SavedList, buffer: seq<Byte>)
    requires WellPlaced(ls, |m0|) && |m1| == |m0| && i < |ls| && ls[i].End() <= 8 * |m0|
    requires r.bitOffset < 8 && r.byteCount == |r.data| == (r.bitOffset + ls[i].size + 7) / 8
    requires |r.data| <= |buffer| && r.data == buffer[..|r.data|]
    requires Stream(m1) == Splice(Stream(m0), ls[i].start, Stream(buffer)[r.bitOffset..r.bitOffset + ls[i].size])
    ensures Holds(r, Contents(m1, ls)[i])
    ensures Contents(m1, ls) == Contents(m0, ls)[i := Contents(m1, ls)[i]]
  {
    hide Stream, WellPlaced, Splice, Contents;
    var w := Stream(buffer)[r.bitOffset..r.bitOffset + ls[i].size];
    WriteInsideList(m0, m1, ls, i, 0, w);
    SpliceAll(ListBits(m0, ls[i]), w);
    StreamSlice(buffer, 0, |r.data|);
    SubSlice(Stream(buffer), 0, 8 * |r.data|, r.bitOffset, r.bitOffset + ls[i].size);
    assert buffer[0..|r.data|] == r.data;
  }

  lemma SnapshotDone(bits: seq<seq<bool>>, flags: seq<bool>, tag: char, firstList: nat, written: seq<SavedList>,
      image: seq<seq<bool>>)
    requires Snapshot(bits, flags, tag, firstList, written, image)
    requires forall k :: 0 <= k < |flags| ==> !flags[k]
    ensures Complete(tag, firstList, written, image)
  {
    assert flags == seq(|image|, _ => false);
  }
}
