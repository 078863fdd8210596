/** Saved delta lists (uds/deltaMemory.c): what an incremental save has to keep
    true while the lists go on changing. */
module DeltaSave {
  import opened Bits
  import opened DeltaLayout

  /** The header and data of one saved list. */
  datatype SavedList = SavedList(tag: char, bitOffset: nat, byteCount: nat, index: nat, data: seq<Byte>)

  /** The record holds the given bits. */
  ghost predicate Holds(r: SavedList, bits: seq<bool>)
  {
    && r.bitOffset < 8 && r.byteCount == |r.data| == (r.bitOffset + |bits| + 7) / 8
    && Stream(r.data)[r.bitOffset..r.bitOffset + |bits|] == bits
  }

  /** The number of set flags. */
  function Count(flags: seq<bool>): nat
  {
    if flags == [] then 0 else (if flags[0] then 1 else 0) + Count(flags[1..])
  }

  lemma {:induction false} CountUpdate(flags: seq<bool>, k: nat, value: bool)
    requires k < |flags|
    ensures Count(flags[k := value]) == Count(flags) - (if flags[k] then 1 else 0) + (if value then 1 else 0)
  {
    if k > 0 {
      assert flags[k := value][1..] == flags[1..][k - 1 := value];
      CountUpdate(flags[1..], k - 1, value);
    } else {
      assert flags[k := value][1..] == flags[1..];
    }
  }

  lemma {:induction false} CountZero(flags: seq<bool>)
    ensures Count(flags) == 0 <==> forall k :: 0 <= k < |flags| ==> !flags[k]
  {
    if flags != [] {
      CountZero(flags[1..]);
      assert forall k :: 1 <= k < |flags| ==> flags[k] == flags[1..][k - 1];
    }
  }

  /** The record is of a list that was not empty and has been written as it was. */
  ghost predicate Faithful(r: SavedList, flags: seq<bool>, tag: char, firstList: nat, image: seq<seq<bool>>)
    requires |image| == |flags|
  {
    && r.tag == tag && firstList <= r.index < firstList + |flags|
    && var k := r.index - firstList;
       !flags[k] && image[k] != [] && Holds(r, image[k])
  }

  ghost predicate IsWritten(written: seq<SavedList>, index: nat) {
    exists a :: 0 <= a < |written| && written[a].index == index
  }

  /** The records written hold each list of the image whose flag is clear exactly
      once, and no other list. */
  ghost predicate Written(flags: seq<bool>, tag: char, firstList: nat, written: seq<SavedList>, image: seq<seq<bool>>)
    requires |image| == |flags|
  {
    && (forall a :: 0 <= a < |written| ==> Faithful(written[a], flags, tag, firstList, image))
    && (forall a, b :: 0 <= a < b < |written| ==> written[a].index != written[b].index)
    && (forall k :: 0 <= k < |flags| && !flags[k] && image[k] != [] ==> IsWritten(written, firstList + k))
  }

  /** The invariant of an incremental save. The lists still flagged have the bits
      they had when the save began; the others have been written as they were then. */
  ghost predicate Snapshot(bits: seq<seq<bool>>, flags: seq<bool>, tag: char, firstList: nat, written: seq<SavedList>,
      image: seq<seq<bool>>)
  {
    && |image| == |flags| && |bits| == |flags| + 2
    && (forall k :: 0 <= k < |flags| && flags[k] ==> image[k] != [] && bits[k + 1] == image[k])
    && Written(flags, tag, firstList, written, image)
  }

  /** Any change to lists that are not flagged keeps the invariant. */
  lemma SnapshotKept(bits: seq<seq<bool>>, after: seq<seq<bool>>, flags: seq<bool>, tag: char, firstList: nat,
      written: seq<SavedList>, image: seq<seq<bool>>)
    requires Snapshot(bits, flags, tag, firstList, written, image) && |after| == |bits|
    requires forall k :: 0 <= k < |flags| && flags[k] ==> after[k + 1] == bits[k + 1]
    ensures Snapshot(after, flags, tag, firstList, written, image)
  {
    hide Written;
  }

  /** Writing a flagged list and clearing its flag keeps the invariant. */
  lemma SnapshotFlush(bits: seq<seq<bool>>, flags: seq<bool>, tag: char, firstList: nat, written: seq<SavedList>,
      image: seq<seq<bool>>, k: nat, r: SavedList)
    requires Snapshot(bits, flags, tag, firstList, written, image)
    requires k < |flags| && flags[k] && r.index == firstList + k && r.tag == tag && Holds(r, bits[k + 1])
    ensures Snapshot(bits, flags[k := false], tag, firstList, written + [r], image)
  {
    hide Holds, IsWritten;
    var after, f := written + [r], flags[k := false];
    forall a | 0 <= a < |written|
      ensures Faithful(written[a], f, tag, firstList, image) && written[a].index != r.index
    {
      assert Faithful(written[a], flags, tag, firstList, image);
    }
    forall j | 0 <= j < |f| && !f[j] && image[j] != []
      ensures IsWritten(after, firstList + j)
    {
      IsWrittenMore(written, r, firstList + j);
    }
  }

  lemma IsWrittenMore(written: seq<SavedList>, r: SavedList, index: nat)
    ensures IsWritten(written + [r], index) <==> IsWritten(written, index) || r.index == index
  {
    var after := written + [r];
    assert after[|written|] == r;
    if IsWritten(written, index) {
      var a :| 0 <= a < |written| && written[a].index == index;
      assert after[a].index == index;
    }
  }

  /** A save of the image is complete: each list that was not empty is in the
      stream exactly once, as it was when the save began. */
  ghost predicate Complete(tag: char, firstList: nat, written: seq<SavedList>, image: seq<seq<bool>>)
  {
    Written(seq(|image|, _ => false), tag, firstList, written, image)
  }
}
