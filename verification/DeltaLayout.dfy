/** Where the delta lists of one zone lie in its memory (uds/deltaMemory.h and
    the layout arithmetic of uds/deltaMemory.c).

    The headers are numbered 0 to N+1: the real lists are 1 to N, header 0 is an
    empty guard at the start of memory and header N+1 is the tail guard, which
    holds the guard bytes. Neighbouring lists may share a byte. */
module DeltaLayout {
  import opened Bits

  const UINT16_MAX := 65535
  /** The number of guard bits in the tail guard list. */
  const GUARD_BITS := 56

  /** A delta list header. */
  datatype DeltaList = DeltaList(
    start: nat,       // bit offset of the list within memory
    size: nat,        // number of bits in the list
    saveOffset: nat,  // where the last search ended, relative to start
    saveKey: nat)     // the key of the record just before saveOffset
  {
    function End(): nat { start + size }
    function ByteStart(): nat { start / 8 }
    /** The number of bytes that the list touches. */
    function ByteSize(): nat { (start % 8 + size + 7) / 8 }
    function ByteEnd(): nat { ByteStart() + ByteSize() }
  }

  lemma ByteEndIsCeiling(l: DeltaList)
    ensures l.ByteEnd() == (l.End() + 7) / 8
  {
    assert l.start == 8 * (l.start / 8) + l.start % 8;
  }

  /** Lists that end before a given list starts share at most its first byte. */
  lemma ByteBounds(a: DeltaList, b: DeltaList)
    requires a.End() <= b.start
    ensures a.ByteStart() <= b.ByteStart()
    ensures a.ByteEnd() <= b.ByteStart() + 1
    ensures a.ByteEnd() <= b.ByteEnd()
  {
    ByteEndIsCeiling(a);
    ByteEndIsCeiling(b);
  }

  /** The lists first to last lie in memory one after the other. */
  ghost predicate InOrder(ls: seq<DeltaList>, first: nat, last: nat, length: nat)
    requires last < |ls|
  {
    && (forall i :: first <= i <= last ==> ls[i].End() <= 8 * length)
    && (forall i, j :: first <= i < j <= last ==> ls[i].End() <= ls[j].start)
  }

  /** The guards are at the two ends of memory. */
  ghost predicate Framed(ls: seq<DeltaList>, length: nat)
  {
    && |ls| >= 3
    && ls[0].start == 0 && ls[0].size == 0
    && ls[|ls| - 1].size == GUARD_BITS && ls[|ls| - 1].End() == 8 * length
    && (forall i :: 0 <= i < |ls| ==> ls[i].size <= UINT16_MAX)
  }

  /** The invariant of a zone of delta lists: the guards are at the two ends of
      memory and the lists lie between them in order. */
  ghost predicate WellPlaced(ls: seq<DeltaList>, length: nat)
  {
    Framed(ls, length) && InOrder(ls, 0, |ls| - 1, length)
  }

  /** What the edits of one list need to know of its place. */
  lemma WellPlacedList(ls: seq<DeltaList>, length: nat, i: nat)
    requires WellPlaced(ls, length) && 1 <= i < |ls| - 1
    ensures ls[i - 1].End() <= ls[i].start && ls[i].End() <= ls[i + 1].start
    ensures ls[i + 1].start + GUARD_BITS <= 8 * length
    ensures ls[i].size <= UINT16_MAX
    ensures forall j :: 0 <= j < |ls| ==> ls[j].End() <= 8 * length
    ensures forall offset: nat, size: nat :: offset + size <= ls[i + 1].start ==> Guarded(length, offset, size)
  {
    var tail := ls[|ls| - 1];
    assert i + 1 < |ls| - 1 ==> ls[i + 1].End() <= tail.start;
  }

  // ------------------------------------------------------------- contents

  /** The bits of one list. */
  ghost function ListBits(m: seq<Byte>, l: DeltaList): (bits: seq<bool>)
    requires l.End() <= 8 * |m|
    ensures |bits| == l.size
  {
    Stream(m)[l.start..l.End()]
  }

  /** The bits of every list, guards included. */
  ghost function Contents(m: seq<Byte>, ls: seq<DeltaList>): (c: seq<seq<bool>>)
    requires WellPlaced(ls, |m|)
    ensures |c| == |ls|
    ensures forall i :: 0 <= i < |ls| ==> c[i] == ListBits(m, ls[i])
  {
    seq(|ls|, i requires 0 <= i < |ls| => ListBits(m, ls[i]))
  }

  /** Writing inside one list changes that list only. */
  lemma WriteInsideList(m0: seq<Byte>, m1: seq<Byte>, ls: seq<DeltaList>, i: nat, offset: nat, w: seq<bool>)
    requires |m0| == |m1| && WellPlaced(ls, |m0|) && i < |ls| && offset + |w| <= ls[i].size
    requires Stream(m1) == Splice(Stream(m0), ls[i].start + offset, w)
    ensures Contents(m1, ls) == Contents(m0, ls)[i := Splice(ListBits(m0, ls[i]), offset, w)]
  {
    hide Stream, Splice;
    var s0, s1 := Stream(m0), Stream(m1);
    forall j | 0 <= j < |ls|
      ensures ListBits(m1, ls[j]) == if j == i then Splice(ListBits(m0, ls[i]), offset, w) else ListBits(m0, ls[j])
    {
      if j != i {
        assert ls[j].End() <= ls[i].start || ls[i].End() <= ls[j].start;
        SpliceKeeps(s0, ls[i].start + offset, w, ls[j].start, ls[j].End());
      } else {
        SpliceSlice(s0, ls[i].start, ls[i].End(), offset, w);
      }
    }
  }

  lemma SpliceSlice<T>(s: seq<T>, from: nat, to: nat, offset: nat, w: seq<T>)
    requires from + offset + |w| <= to <= |s|
    ensures Splice(s, from + offset, w)[from..to] == Splice(s[from..to], offset, w)
  {
  }

  // --------------------------------------------------- rebalancing: a plan

  /** The bytes of list l have been carried to the bit offset at. */
  ghost predicate Carried(m0: seq<Byte>, m1: seq<Byte>, l: DeltaList, at: nat)
    requires l.ByteEnd() <= |m0|
  {
    && at / 8 + l.ByteSize() <= |m1|
    && m1[at / 8..at / 8 + l.ByteSize()] == m0[l.ByteStart()..l.ByteEnd()]
  }

  /** Carrying the bytes carries the bits, when the bit within the byte is kept. */
  lemma CarriedBits(m0: seq<Byte>, m1: seq<Byte>, l: DeltaList, at: nat)
    requires l.End() <= 8 * |m0| && l.ByteEnd() <= |m0| && Carried(m0, m1, l, at)
    requires at % 8 == l.start % 8
    ensures at + l.size <= 8 * |m1|
    ensures ListBits(m1, l.(start := at)) == ListBits(m0, l)
  {
    hide Stream;
    var n, k := l.ByteSize(), at % 8;
    StreamSlice(m0, l.ByteStart(), l.ByteEnd());
    StreamSlice(m1, at / 8, at / 8 + n);
    SubSlice(Stream(m0), 8 * l.ByteStart(), 8 * l.ByteEnd(), k, k + l.size);
    SubSlice(Stream(m1), 8 * (at / 8), 8 * (at / 8 + n), k, k + l.size);
  }

  /** New offsets for the lists first to last: each keeps its place within a
      byte, and no two lists share a byte any more. */
  ghost predicate Planned(ls: seq<DeltaList>, plan: seq<nat>, first: nat, last: nat, length: nat)
    requires last < |ls| == |plan|
  {
    && (forall i :: first <= i <= last ==> plan[i] % 8 == ls[i].start % 8 && plan[i] / 8 + ls[i].ByteSize() <= length)
    && (forall i, j :: first <= i < j <= last ==> plan[i] / 8 + ls[i].ByteSize() <= plan[j] / 8)
  }

  /** Every list first to last has been carried to its planned offset, and no
      byte outside the planned ranges of those lists has changed. */
  ghost predicate Rebalanced(m0: seq<Byte>, m1: seq<Byte>, ls: seq<DeltaList>, plan: seq<nat>, first: nat, last: nat)
    requires first <= last < |ls| == |plan|
  {
    && |m1| == |m0|
    && (forall i :: first <= i <= last ==> ls[i].ByteEnd() <= |m0| && Carried(m0, m1, ls[i], plan[i]))
    && (forall b :: 0 <= b < |m0| && (b < plan[first] / 8 || plan[last] / 8 + ls[last].ByteSize() <= b) ==>
          m1[b] == m0[b])
  }

  /** The headers with the lists first to last at their planned places. */
  function Replaced(ls: seq<DeltaList>, plan: seq<nat>, first: nat, last: nat): (r: seq<DeltaList>)
    requires |plan| == |ls|
    ensures |r| == |ls|
  {
    seq(|ls|, i requires 0 <= i < |ls| => if first <= i <= last then ls[i].(start := plan[i]) else ls[i])
  }

  /** Replacing one half and then the other. */
  lemma ReplacedHalves(ls: seq<DeltaList>, plan: seq<nat>, first: nat, middle: nat, last: nat)
    requires first <= middle < last < |ls| == |plan|
    ensures Replaced(Replaced(ls, plan, middle + 1, last), plan, first, middle) == Replaced(ls, plan, first, last)
    ensures Replaced(Replaced(ls, plan, first, middle), plan, middle + 1, last) == Replaced(ls, plan, first, last)
    ensures forall i :: first <= i <= middle ==> Replaced(ls, plan, middle + 1, last)[i] == ls[i]
    ensures forall i :: middle + 1 <= i <= last ==> Replaced(ls, plan, first, middle)[i] == ls[i]
  {
  }

  lemma PartPlanned(ls: seq<DeltaList>, other: seq<DeltaList>, plan: seq<nat>, first: nat, last: nat, from: nat,
      to: nat, length: nat)
    requires first <= from <= to <= last < |ls| == |other| == |plan|
    requires InOrder(ls, first, last, length) && Planned(ls, plan, first, last, length)
    requires forall i :: from <= i <= to ==> other[i] == ls[i]
    ensures InOrder(other, from, to, length) && Planned(other, plan, from, to, length)
  {
    hide DeltaList.ByteSize;
  }

  lemma PartRebalanced(ls: seq<DeltaList>, other: seq<DeltaList>, plan: seq<nat>, first: nat, last: nat, m0: seq<Byte>,
      m1: seq<Byte>)
    requires first <= last < |ls| == |other| == |plan|
    requires forall i :: first <= i <= last ==> other[i] == ls[i]
    requires Rebalanced(m0, m1, other, plan, first, last)
    ensures Rebalanced(m0, m1, ls, plan, first, last)
  {
    hide Carried;
  }

  /** A list carried from a memory whose source bytes are still the original. */
  lemma CarriedLater(m0: seq<Byte>, m1: seq<Byte>, m2: seq<Byte>, l: DeltaList, at: nat)
    requires |m0| == |m1| && l.ByteEnd() <= |m0| && Carried(m1, m2, l, at)
    requires forall b :: l.ByteStart() <= b < l.ByteEnd() ==> m1[b] == m0[b]
    ensures Carried(m0, m2, l, at)
  {
    assert m1[l.ByteStart()..l.ByteEnd()] == m0[l.ByteStart()..l.ByteEnd()];
  }

  /** A carried list stays carried while its new bytes are left alone. */
  lemma CarriedStill(m0: seq<Byte>, m1: seq<Byte>, m2: seq<Byte>, l: DeltaList, at: nat)
    requires |m1| == |m2| && l.ByteEnd() <= |m0| && Carried(m0, m1, l, at)
    requires forall b :: at / 8 <= b < at / 8 + l.ByteSize() ==> m2[b] == m1[b]
    ensures Carried(m0, m2, l, at)
  {
    assert m2[at / 8..at / 8 + l.ByteSize()] == m1[at / 8..at / 8 + l.ByteSize()];
  }

  /** The upper half goes first when the middle list moves up: what it writes
      lies above everything the lower half still has to read, and the lower half
      then writes below it. */
  lemma UpperHalfFirst(m0: seq<Byte>, m1: seq<Byte>, m2: seq<Byte>, ls: seq<DeltaList>, plan: seq<nat>, first: nat,
      middle: nat, last: nat)
    requires first <= middle < last < |ls| == |plan|
    requires InOrder(ls, first, last, |m0|) && Planned(ls, plan, first, last, |m0|)
    requires plan[middle] > ls[middle].start
    requires Rebalanced(m0, m1, ls, plan, middle + 1, last) && Rebalanced(m1, m2, ls, plan, first, middle)
    ensures Rebalanced(m0, m2, ls, plan, first, last)
  {
    hide Carried;
    assert ls[middle].ByteEnd() <= plan[middle + 1] / 8;
    forall i | first <= i <= last
      ensures ls[i].ByteEnd() <= |m0| && Carried(m0, m2, ls[i], plan[i])
    {
      if i <= middle {
        if i < middle {
          ByteBounds(ls[i], ls[middle]);
        }
        CarriedLater(m0, m1, m2, ls[i], plan[i]);
      } else {
        CarriedStill(m0, m1, m2, ls[i], plan[i]);
      }
    }
  }

  /** The lower half goes first when the middle list stays or moves down: of the
      bytes the upper half still has to read it can only touch one it shares with
      a middle list that stays, and that byte keeps its value. */
  lemma LowerHalfFirst(m0: seq<Byte>, m1: seq<Byte>, m2: seq<Byte>, ls: seq<DeltaList>, plan: seq<nat>, first: nat,
      middle: nat, last: nat)
    requires first <= middle < last < |ls| == |plan|
    requires InOrder(ls, first, last, |m0|) && Planned(ls, plan, first, last, |m0|)
    requires plan[middle] <= ls[middle].start
    requires Rebalanced(m0, m1, ls, plan, first, middle) && Rebalanced(m1, m2, ls, plan, middle + 1, last)
    ensures Rebalanced(m0, m2, ls, plan, first, last)
  {
    hide Carried;
    forall b | ls[middle + 1].ByteStart() <= b < |m0|
      ensures m1[b] == m0[b]
    {
      SharedByte(m0, m1, ls[middle], plan[middle], ls[middle + 1], b);
    }
    forall i | first <= i <= last
      ensures ls[i].ByteEnd() <= |m0| && Carried(m0, m2, ls[i], plan[i])
    {
      if i <= middle {
        CarriedStill(m0, m1, m2, ls[i], plan[i]);
      } else {
        if i > middle + 1 {
          ByteBounds(ls[middle + 1], ls[i]);
        }
        CarriedLater(m0, m1, m2, ls[i], plan[i]);
      }
    }
  }

  lemma SharedByte(m0: seq<Byte>, m1: seq<Byte>, middle: DeltaList, at: nat, next: DeltaList, b: nat)
    requires middle.End() <= next.start && at <= middle.start && at % 8 == middle.start % 8
    requires |m0| == |m1| && middle.ByteEnd() <= |m0| && Carried(m0, m1, middle, at)
    requires next.ByteStart() <= b < |m0|
    requires at / 8 + middle.ByteSize() <= b ==> m1[b] == m0[b]
    ensures m1[b] == m0[b]
  {
    ByteBounds(middle, next);
    if b < at / 8 + middle.ByteSize() {
      assert at == middle.start;
      var k := b - middle.ByteStart();
      assert m1[middle.ByteStart()..middle.ByteEnd()][k] == m0[middle.ByteStart()..middle.ByteEnd()][k];
    }
  }

  /** After every list has been carried to its planned place the lists are well
      placed again, with the bits they had. */
  lemma RebalancedContents(m0: seq<Byte>, m1: seq<Byte>, ls: seq<DeltaList>, plan: seq<nat>, after: seq<DeltaList>)
    requires WellPlaced(ls, |m0|) && |plan| == |after| == |ls| && |m1| == |m0|
    requires Planned(ls, plan, 1, |ls| - 1, |m0|) && plan[|ls| - 1] == ls[|ls| - 1].start
    requires Rebalanced(m0, m1, ls, plan, 1, |ls| - 1)
    requires after[0] == ls[0] && forall i :: 1 <= i < |ls| ==> after[i] == ls[i].(start := plan[i])
    ensures WellPlaced(after, |m1|) && Contents(m1, after) == Contents(m0, ls)
  {
    hide Stream;
    PlanIsInOrder(ls, plan, after, |m0|);
    forall i | 0 <= i < |ls|
      ensures ListBits(m1, after[i]) == ListBits(m0, ls[i])
    {
      if i > 0 {
        CarriedBits(m0, m1, ls[i], plan[i]);
      }
    }
  }

  /** Planned offsets are in order. */
  lemma PlanIsInOrder(ls: seq<DeltaList>, plan: seq<nat>, after: seq<DeltaList>, length: nat)
    requires Framed(ls, length) && |plan| == |after| == |ls|
    requires Planned(ls, plan, 1, |ls| - 1, length) && plan[|ls| - 1] == ls[|ls| - 1].start
    requires after[0] == ls[0] && forall i :: 1 <= i < |ls| ==> after[i] == ls[i].(start := plan[i])
    ensures WellPlaced(after, length)
  {
    forall i, j | 0 <= i < j < |ls|
      ensures after[i].End() <= after[j].start
    {
      if i > 0 {
        PlannedEnd(ls[i], plan[i]);
      }
    }
    forall i | 0 <= i < |ls|
      ensures after[i].End() <= 8 * length
    {
      if i > 0 {
        PlannedEnd(ls[i], plan[i]);
      }
    }
  }

  lemma PlannedEnd(l: DeltaList, at: nat)
    requires at % 8 == l.start % 8
    ensures at + l.size <= 8 * (at / 8 + l.ByteSize())
  {
    assert at == 8 * (at / 8) + l.start % 8;
  }

  // ------------------------------------------------ extending: making a plan

  /** The bytes touched by the first n lists. */
  function BytesUsed(ls: seq<DeltaList>, n: nat): nat
    requires n <= |ls|
  {
    if n == 0 then 0 else BytesUsed(ls, n - 1) + ls[n - 1].ByteSize()
  }

  /** Whether list i can grow: its size stays within 16 bits, and there is enough
      free space before it or after it, or a rebalance can gather it. */
  ghost predicate CanGrow(ls: seq<DeltaList>, length: nat, i: nat, size: int)
  {
    && 1 <= i < |ls| - 1
    && ls[i].size + size <= UINT16_MAX
    && (size <= ls[i].start - ls[i - 1].End() || size <= ls[i + 1].start - ls[i].End() ||
          (size + 7) / 8 + BytesUsed(ls, |ls|) <= length)
  }

  /** The first byte planned for list i: the lists are spread evenly, the gap
      before the first is halved, and the gap before list growing is larger by
      growingSize bytes. */
  function PlanByte(ls: seq<DeltaList>, i: nat, spacing: nat, growing: nat, growingSize: nat): nat
    requires i <= |ls|
  {
    if i == 0 then 0
    else
      PlanByte(ls, i - 1, spacing, growing, growingSize) + ls[i - 1].ByteSize() + spacing
      - (if i == 1 then spacing / 2 else 0)
      + (if i == growing then growingSize else 0)
  }

  /** The bit offset planned for list i: within its byte it stays where it was. */
  function PlanBit(ls: seq<DeltaList>, i: nat, spacing: nat, growing: nat, growingSize: nat): nat
    requires i < |ls|
  {
    8 * PlanByte(ls, i, spacing, growing, growingSize) + ls[i].start % 8
  }

  lemma {:induction false} PlanByteValue(ls: seq<DeltaList>, i: nat, spacing: nat, growing: nat, growingSize: nat)
    requires i <= |ls|
    ensures PlanByte(ls, i, spacing, growing, growingSize)
         == BytesUsed(ls, i) + i * spacing - (if i > 0 then spacing / 2 else 0) +
           (if 1 <= growing <= i then growingSize else 0)
  {
    if i > 0 {
      PlanByteValue(ls, i - 1, spacing, growing, growingSize);
      assert i * spacing == (i - 1) * spacing + spacing;
    }
  }

  lemma {:induction false} PlanByteInOrder(ls: seq<DeltaList>, i: nat, j: nat, spacing: nat, growing: nat,
      growingSize: nat)
    requires i < j <= |ls|
    ensures PlanByte(ls, i, spacing, growing, growingSize) + ls[i].ByteSize() +
      (if j == growing then growingSize else 0)
         <= PlanByte(ls, j, spacing, growing, growingSize)
    decreases j
  {
    if i < j - 1 {
      PlanByteInOrder(ls, i, j - 1, spacing, growing, growingSize);
    }
  }

  /** The plan that extendDeltaMemory computes. */
  ghost predicate IsExtendPlan(ls: seq<DeltaList>, plan: seq<nat>, length: nat, spacing: nat, growing: nat,
      growingSize: nat)
  {
    && |plan| == |ls| >= 3
    && (forall i :: 0 <= i < |ls| - 1 ==> plan[i] == PlanBit(ls, i, spacing, growing, growingSize))
    && plan[|ls| - 1] == 8 * length - ls[|ls| - 1].size
  }

  /** When the space suffices, the plan separates all lists by whole bytes, does
      not move the tail guard, and leaves the requested bytes before the growing list. */
  lemma ExtendPlanIsPlanned(ls: seq<DeltaList>, plan: seq<nat>, length: nat, spacing: nat, growing: nat,
      growingSize: nat)
    requires Framed(ls, length)
    requires growingSize + BytesUsed(ls, |ls|) <= length
    requires spacing == (length - growingSize - BytesUsed(ls, |ls|)) / (|ls| - 2)
    requires IsExtendPlan(ls, plan, length, spacing, growing, growingSize)
    ensures Planned(ls, plan, 1, |ls| - 1, length) && plan[|ls| - 1] == ls[|ls| - 1].start
    ensures 1 <= growing < |ls| ==>
      plan[growing - 1] / 8 + ls[growing - 1].ByteSize() + growingSize <= plan[growing] / 8
  {
    hide PlanByte, BytesUsed;
    Quotient(length - growingSize - BytesUsed(ls, |ls|), |ls| - 2);
    forall i, j | 0 <= i < j < |ls|
      ensures plan[i] / 8 + ls[i].ByteSize() + (if j == growing then growingSize else 0) <= plan[j] / 8
    {
      ExtendPlanGap(ls, plan, length, spacing, growing, growingSize, i, j);
    }
    forall i | 1 <= i < |ls|
      ensures plan[i] % 8 == ls[i].start % 8 && plan[i] / 8 + ls[i].ByteSize() <= length
    {
      if i < |ls| - 1 {
        ByteOf(PlanByte(ls, i, spacing, growing, growingSize), ls[i].start % 8);
        ExtendPlanGap(ls, plan, length, spacing, growing, growingSize, i, |ls| - 1);
      }
    }
  }

  lemma ByteOf(byte: nat, bit: nat)
    requires bit < 8
    ensures (8 * byte + bit) / 8 == byte && (8 * byte + bit) % 8 == bit
  {
  }

  lemma Quotient(room: nat, n: nat)
    requires n > 0
    ensures n * (room / n) <= room
  {
  }

  lemma ExtendPlanGap(ls: seq<DeltaList>, plan: seq<nat>, length: nat, spacing: nat, growing: nat, growingSize: nat,
      i: nat, j: nat)
    requires Framed(ls, length) && IsExtendPlan(ls, plan, length, spacing, growing, growingSize)
    requires growingSize + BytesUsed(ls, |ls|) <= length
    requires (|ls| - 2) * spacing <= length - growingSize - BytesUsed(ls, |ls|)
    requires i < j < |ls|
    ensures plan[i] / 8 + ls[i].ByteSize() + (if j == growing then growingSize else 0) <= plan[j] / 8
  {
    hide PlanByte, BytesUsed;
    ByteOf(PlanByte(ls, i, spacing, growing, growingSize), ls[i].start % 8);
    if j < |ls| - 1 {
      ByteOf(PlanByte(ls, j, spacing, growing, growingSize), ls[j].start % 8);
      PlanByteInOrder(ls, i, j, spacing, growing, growingSize);
    } else {
      TailFits(ls, length, spacing, growing, growingSize);
      if i < |ls| - 2 {
        PlanByteInOrder(ls, i, |ls| - 2, spacing, growing, growingSize);
      }
    }
  }

  /** The last real list ends before the tail guard, with room for a growing tail gap. */
  lemma TailFits(ls: seq<DeltaList>, length: nat, spacing: nat, growing: nat, growingSize: nat)
    requires Framed(ls, length)
    requires growingSize + BytesUsed(ls, |ls|) <= length
    requires (|ls| - 2) * spacing <= length - growingSize - BytesUsed(ls, |ls|)
    ensures PlanByte(ls, |ls| - 2, spacing, growing, growingSize) + ls[|ls| - 2].ByteSize()
          + (if growing == |ls| - 1 then growingSize else 0) <= ls[|ls| - 1].ByteStart()
  {
    PlanByteValue(ls, |ls| - 2, spacing, growing, growingSize);
  }
}
