/** The lemmas that connect a move of bits in memory with the lists it edits. */
module DeltaEdit {
  import opened Bits
  import opened DeltaLayout

  /** The bits of a list with room for size bits made at offset. */
  ghost predicate Opened(before: seq<bool>, after: seq<bool>, offset: nat, size: nat)
    requires offset <= |before|
  {
    && |after| == |before| + size
    && after[..offset] == before[..offset]
    && after[offset + size..] == before[offset..]
  }

  function GrowBefore(ls: seq<DeltaList>, i: nat, size: nat): seq<DeltaList>
    requires i < |ls| && size <= ls[i].start
  {
    ls[i := ls[i].(start := ls[i].start - size, size := ls[i].size + size)]
  }

  function GrowAfter(ls: seq<DeltaList>, i: nat, size: nat): seq<DeltaList>
    requires i < |ls|
  {
    ls[i := ls[i].(size := ls[i].size + size)]
  }

  /** Giving a list another place between its neighbours. */
  lemma ResizedPlaced(ls: seq<DeltaList>, i: nat, l: DeltaList, length: nat)
    requires WellPlaced(ls, length) && 1 <= i < |ls| - 1 && l.size <= UINT16_MAX
    requires ls[i - 1].End() <= l.start && l.End() <= ls[i + 1].start
    ensures WellPlaced(ls[i := l], length)
  {
    var ls' := ls[i := l];
    forall a, b | 0 <= a < b < |ls|
      ensures ls'[a].End() <= ls'[b].start
    {
      if b == i {
        BeforeNeighbour(ls, length, i, a);
      } else if a == i {
        AfterNeighbour(ls, length, i, b);
      }
    }
    assert ls[i + 1].End() <= 8 * length;
  }

  lemma BeforeNeighbour(ls: seq<DeltaList>, length: nat, i: nat, a: nat)
    requires WellPlaced(ls, length) && a < i < |ls|
    ensures ls[a].End() <= ls[i - 1].End()
  {
  }

  lemma AfterNeighbour(ls: seq<DeltaList>, length: nat, i: nat, b: nat)
    requires WellPlaced(ls, length) && i < b < |ls|
    ensures ls[i + 1].start <= ls[b].start
  {
  }

  /** Writing between the neighbours of a list changes no other list. */
  lemma OthersKept(m0: seq<Byte>, m1: seq<Byte>, ls: seq<DeltaList>, i: nat, at: nat, w: seq<bool>)
    requires WellPlaced(ls, |m0|) && |m1| == |m0| && 1 <= i < |ls| - 1
    requires ls[i - 1].End() <= at && at + |w| <= ls[i + 1].start <= 8 * |m0| && Stream(m1) == Splice(Stream(m0), at, w)
    ensures forall j :: 0 <= j < |ls| ==> ls[j].End() <= 8 * |m0|
    ensures forall j :: 0 <= j < |ls| && j != i ==> ListBits(m1, ls[j]) == ListBits(m0, ls[j])
  {
    hide Stream, Splice;
    forall j | 0 <= j < |ls| && j != i
      ensures ListBits(m1, ls[j]) == ListBits(m0, ls[j])
    {
      if j < i {
        BeforeNeighbour(ls, |m0|, i, j);
      } else {
        AfterNeighbour(ls, |m0|, i, j);
      }
      SpliceKeeps(Stream(m0), at, w, ls[j].start, ls[j].End());
    }
  }

  /** Opening a gap by moving the bits before it down into the free space. */
  lemma OpenBefore(m0: seq<Byte>, m1: seq<Byte>, ls: seq<DeltaList>, i: nat, offset: nat, size: nat)
    requires WellPlaced(ls, |m0|) && |m1| == |m0| && 1 <= i < |ls| - 1
    requires offset <= ls[i].size && ls[i].size + size <= UINT16_MAX
    requires ls[i - 1].End() + size <= ls[i].start
    requires Stream(m1) == Splice(Stream(m0), ls[i].start - size, Stream(m0)[ls[i].start..ls[i].start + offset])
    ensures WellPlaced(GrowBefore(ls, i, size), |m1|)
    ensures Opened(ListBits(m0, ls[i]), ListBits(m1, GrowBefore(ls, i, size)[i]), offset, size)
    ensures forall j :: 0 <= j < |ls| && j != i ==> ListBits(m1, ls[j]) == ListBits(m0, ls[j])
  {
    hide Stream, Splice, Opened, WellPlaced;
    var l := ls[i];
    WellPlacedList(ls, |m0|, i);
    ResizedPlaced(ls, i, l.(start := l.start - size, size := l.size + size), |m0|);
    OthersKept(m0, m1, ls, i, l.start - size, Stream(m0)[l.start..l.start + offset]);
    MovedDown(Stream(m0), Stream(m1), l.start, l.End(), offset, size);
  }

  lemma MovedDown(s0: seq<bool>, s1: seq<bool>, start: nat, end: nat, offset: nat, size: nat)
    requires size <= start && start + offset <= end <= |s0|
    requires s1 == Splice(s0, start - size, s0[start..start + offset])
    ensures Opened(s0[start..end], s1[start - size..end], offset, size)
  {
    hide Splice;
    SpliceHolds(s0, start - size, s0[start..start + offset]);
    SpliceKeeps(s0, start - size, s0[start..start + offset], start + offset, end);
    SubSlice(s0, start, end, 0, offset);
    SubSlice(s1, start - size, end, 0, offset);
    SubSlice(s0, start, end, offset, end - start);
    SubSlice(s1, start - size, end, offset + size, end - start + size);
  }

  /** Opening a gap by moving the bits after it up into the free space. */
  lemma OpenAfter(m0: seq<Byte>, m1: seq<Byte>, ls: seq<DeltaList>, i: nat, offset: nat, size: nat)
    requires WellPlaced(ls, |m0|) && |m1| == |m0| && 1 <= i < |ls| - 1
    requires offset <= ls[i].size && ls[i].size + size <= UINT16_MAX
    requires ls[i].End() + size <= ls[i + 1].start
    requires Stream(m1) ==
      Splice(Stream(m0), ls[i].start + offset + size, Stream(m0)[ls[i].start + offset..ls[i].End()])
    ensures WellPlaced(GrowAfter(ls, i, size), |m1|)
    ensures Opened(ListBits(m0, ls[i]), ListBits(m1, GrowAfter(ls, i, size)[i]), offset, size)
    ensures forall j :: 0 <= j < |ls| && j != i ==> ListBits(m1, ls[j]) == ListBits(m0, ls[j])
  {
    hide Stream, Splice, Opened, WellPlaced;
    var l := ls[i];
    WellPlacedList(ls, |m0|, i);
    ResizedPlaced(ls, i, l.(size := l.size + size), |m0|);
    OthersKept(m0, m1, ls, i, l.start + offset + size, Stream(m0)[l.start + offset..l.End()]);
    MovedUp(Stream(m0), Stream(m1), l.start, l.End(), offset, size);
  }

  lemma MovedUp(s0: seq<bool>, s1: seq<bool>, start: nat, end: nat, offset: nat, size: nat)
    requires start + offset <= end && end + size <= |s0|
    requires s1 == Splice(s0, start + offset + size, s0[start + offset..end])
    ensures Opened(s0[start..end], s1[start..end + size], offset, size)
  {
  }

  /** Closing a gap by moving the bits before it up. */
  lemma CloseBefore(m0: seq<Byte>, m1: seq<Byte>, ls: seq<DeltaList>, i: nat, offset: nat, size: nat)
    requires WellPlaced(ls, |m0|) && |m1| == |m0| && 1 <= i < |ls| - 1
    requires offset + size <= ls[i].size
    requires Stream(m1) == Splice(Stream(m0), ls[i].start + size, Stream(m0)[ls[i].start..ls[i].start + offset])
    ensures var ls' := ls[i := ls[i].(start := ls[i].start + size, size := ls[i].size - size)];
            var bits := ListBits(m0, ls[i]);
            WellPlaced(ls', |m1|) && Contents(m1, ls') == Contents(m0, ls)[i := bits[..offset] + bits[offset + size..]]
  {
    hide Stream, Splice, Opened, WellPlaced;
    var l := ls[i];
    var ls' := ls[i := l.(start := l.start + size, size := l.size - size)];
    WellPlacedList(ls, |m0|, i);
    ResizedPlaced(ls, i, ls'[i], |m0|);
    OthersKept(m0, m1, ls, i, l.start + size, Stream(m0)[l.start..l.start + offset]);
    ClosedUp(Stream(m0), Stream(m1), l.start, l.End(), offset, size);
  }

  lemma ClosedUp(s0: seq<bool>, s1: seq<bool>, start: nat, end: nat, offset: nat, size: nat)
    requires start + offset + size <= end <= |s0|
    requires s1 == Splice(s0, start + size, s0[start..start + offset])
    ensures s1[start + size..end] == s0[start..end][..offset] + s0[start..end][offset + size..]
  {
    hide Splice;
    SpliceHolds(s0, start + size, s0[start..start + offset]);
    SpliceKeeps(s0, start + size, s0[start..start + offset], start + size + offset, end);
    SubSlice(s0, start, end, 0, offset);
    SubSlice(s0, start, end, offset + size, end - start);
    assert s1[start + size..end] == s1[start + size..start + size + offset] + s1[start + size + offset..end];
  }

  /** Closing a gap by moving the bits after it down. */
  lemma CloseAfter(m0: seq<Byte>, m1: seq<Byte>, ls: seq<DeltaList>, i: nat, offset: nat, size: nat)
    requires WellPlaced(ls, |m0|) && |m1| == |m0| && 1 <= i < |ls| - 1
    requires offset + size <= ls[i].size
    requires Stream(m1) ==
      Splice(Stream(m0), ls[i].start + offset, Stream(m0)[ls[i].start + offset + size..ls[i].End()])
    ensures var ls' := ls[i := ls[i].(size := ls[i].size - size)];
            var bits := ListBits(m0, ls[i]);
            WellPlaced(ls', |m1|) && Contents(m1, ls') == Contents(m0, ls)[i := bits[..offset] + bits[offset + size..]]
  {
    hide Stream, Splice, Opened, WellPlaced;
    var l := ls[i];
    var ls' := ls[i := l.(size := l.size - size)];
    WellPlacedList(ls, |m0|, i);
    ResizedPlaced(ls, i, ls'[i], |m0|);
    OthersKept(m0, m1, ls, i, l.start + offset, Stream(m0)[l.start + offset + size..l.End()]);
    ClosedDown(Stream(m0), Stream(m1), l.start, l.End(), offset, size);
  }

  lemma ClosedDown(s0: seq<bool>, s1: seq<bool>, start: nat, end: nat, offset: nat, size: nat)
    requires start + offset + size <= end <= |s0|
    requires s1 == Splice(s0, start + offset, s0[start + offset + size..end])
    ensures s1[start..end - size] == s0[start..end][..offset] + s0[start..end][offset + size..]
  {
  }
}
