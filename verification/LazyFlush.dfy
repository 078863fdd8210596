/** What lazy flushing does to the entries of one list. */
module LazyFlush {
  import opened Numbers
  import opened DeltaCode
  import opened DeltaEntries
  import opened ChapterNumbers

  /** The entries of a list, each with the virtual chapter it was put in. The
      entries store only its low bits. */
  datatype Dated = Dated(entries: seq<Entry>, chapters: seq<nat>)

  ghost predicate IsDated(d: Dated, modulus: nat)
    requires modulus > 0
  {
    && |d.entries| == |d.chapters|
    && forall i :: 0 <= i < |d.entries| ==> d.entries[i].value == d.chapters[i] % modulus
  }

  ghost function Drop(d: Dated, j: nat): Dated
    requires j < |d.entries| == |d.chapters|
  {
    Dated(RemoveEntry(d.entries, j), d.chapters[..j] + d.chapters[j + 1..])
  }

  lemma DropIsDated(d: Dated, j: nat, modulus: nat)
    requires modulus > 0 && IsDated(d, modulus) && j < |d.entries|
    ensures IsDated(Drop(d, j), modulus)
  {
  }

  predicate Flushed(r: Range, value: nat)
    requires r.modulus > 0
  {
    Relative(r, value) < r.count
  }

  /** Remove the entries from j on whose chapter is in the range. */
  ghost function FlushFrom(r: Range, d: Dated, j: nat): (e: Dated)
    requires r.modulus > 0 && j <= |d.entries| == |d.chapters|
    ensures |e.entries| == |e.chapters| && j <= |e.entries|
    decreases |d.entries| - j
  {
    if j == |d.entries| then d
    else if Flushed(r, d.entries[j].value) then FlushFrom(r, Drop(d, j), j)
    else FlushFrom(r, d, j + 1)
  }

  lemma {:induction false} FlushKeepsForm(f: Format, r: Range, d: Dated, j: nat)
    requires r.modulus > 0 && j <= |d.entries| && WellFormed(f, d.entries) && IsDated(d, r.modulus)
    ensures var e := FlushFrom(r, d, j); WellFormed(f, e.entries) && IsDated(e, r.modulus)
    decreases |d.entries| - j
  {
    hide WellFormed;
    if j < |d.entries| {
      if Flushed(r, d.entries[j].value) {
        RemoveEntryView(f, d.entries, j);
        DropIsDated(d, j, r.modulus);
        FlushKeepsForm(f, r, Drop(d, j), j);
      } else {
        FlushKeepsForm(f, r, d, j + 1);
      }
    }
  }

  // -------------------------------------------- the meaning of a flush

  /** A record with its chapter. */
  datatype Row = Row(key: nat, value: nat, chapter: nat)

  ghost function Rows(d: Dated): (rows: seq<Row>)
    requires |d.entries| == |d.chapters|
    ensures |rows| == |d.entries|
  {
    seq(|d.entries|, i requires 0 <= i < |d.entries| => Row(KeyAt(d.entries, i), d.entries[i].value, d.chapters[i]))
  }

  /** The rows whose chapter is not in the range, in order. */
  ghost function Kept(r: Range, rows: seq<Row>): seq<Row>
    requires r.modulus > 0
  {
    if rows == [] then []
    else (if Flushed(r, rows[0].value) then [] else [rows[0]]) + Kept(r, rows[1..])
  }

  lemma DropRows(f: Format, d: Dated, j: nat)
    requires WellFormed(f, d.entries) && j < |d.entries| == |d.chapters|
    ensures Rows(Drop(d, j)) == Rows(d)[..j] + Rows(d)[j + 1..]
  {
    hide KeySum, View, Rows, RemoveEntry, WellFormed;
    var e := Drop(d, j);
    RemoveEntryView(f, d.entries, j);
    assert |View(e.entries)| == |View(d.entries)| - 1;
    var rows := Rows(d)[..j] + Rows(d)[j + 1..];
    forall i | 0 <= i < |e.entries|
      ensures Rows(e)[i] == rows[i]
    {
      var k := if i < j then i else i + 1;
      RowAt(e, i);
      RowAt(d, k);
    }
  }

  lemma RowValue(d: Dated, i: nat)
    requires i < |d.entries| == |d.chapters|
    ensures Rows(d)[i].value == d.entries[i].value && Rows(d)[i].chapter == d.chapters[i]
  {
  }

  lemma RowAt(d: Dated, i: nat)
    requires i < |d.entries| == |d.chapters|
    ensures Rows(d)[i] == Row(View(d.entries)[i].key, View(d.entries)[i].value, d.chapters[i])
  {
  }

  /** A flush removes exactly the records in the range: the others stay in order,
      each with its key, value and chapter. */
  lemma {:induction false} FlushRows(f: Format, r: Range, d: Dated, j: nat)
    requires r.modulus > 0 && j <= |d.entries| == |d.chapters| && WellFormed(f, d.entries)
    ensures Rows(FlushFrom(r, d, j)) == Rows(d)[..j] + Kept(r, Rows(d)[j..])
    decreases |d.entries| - j
  {
    hide WellFormed, RemoveEntry, Flushed, Rows, View;
    var rows := Rows(d);
    if j < |d.entries| {
      RowValue(d, j);
    }
    if j == |d.entries| {
      assert rows[j..] == [] && rows[..j] == rows;
    } else if Flushed(r, d.entries[j].value) {
      DropRows(f, d, j);
      RemoveEntryView(f, d.entries, j);
      FlushRows(f, r, Drop(d, j), j);
      assert Rows(Drop(d, j))[..j] == rows[..j] && Rows(Drop(d, j))[j..] == rows[j..][1..];
      assert rows[j..][0] == rows[j];
    } else {
      FlushRows(f, r, d, j + 1);
      assert rows[j..][1..] == rows[j + 1..] && rows[j..][0] == rows[j];
      assert rows[..j + 1] == rows[..j] + [rows[j]];
    }
  }

  /** The rows of chapters that are still indexed. */
  ghost function Live(rows: seq<Row>, low: nat): seq<Row>
  {
    if rows == [] then []
    else (if rows[0].chapter < low then [] else [rows[0]]) + Live(rows[1..], low)
  }

  /** The range of chapters from flush up to low. */
  function ExpiredRange(flush: nat, low: nat, modulus: nat): Range
    requires modulus > 0 && flush < low
  {
    Range(flush % modulus, if low - flush > modulus - 1 then modulus else low - flush, modulus)
  }

  /** For a chapter in the window of its list, being in the range of stored chapter
      numbers is being expired. */
  lemma ExpiredIsFlushed(flush: nat, low: nat, modulus: nat, chapter: nat)
    requires IsModulus(modulus) && flush < low && flush <= chapter < flush + modulus
    ensures modulus > 0
    ensures Relative(ExpiredRange(flush, low, modulus), chapter % modulus) == chapter - flush
    ensures Flushed(ExpiredRange(flush, low, modulus), chapter % modulus) <==> chapter < low
  {
    hide IsModulus;
    ModulusPositive(modulus);
    WordMod32(chapter % modulus - flush % modulus, modulus);
    LowBits(chapter, flush, modulus);
  }

  lemma {:induction false} KeptIsLive(flush: nat, low: nat, modulus: nat, rows: seq<Row>)
    requires IsModulus(modulus) && modulus > 0 && flush < low
    requires forall i :: 0 <= i < |rows| ==>
      rows[i].value == rows[i].chapter % modulus && flush <= rows[i].chapter < flush + modulus
    ensures Kept(ExpiredRange(flush, low, modulus), rows) == Live(rows, low)
  {
    hide IsModulus, Flushed, ExpiredRange;
    if rows != [] {
      ExpiredIsFlushed(flush, low, modulus, rows[0].chapter);
      KeptIsLive(flush, low, modulus, rows[1..]);
    }
  }

  lemma {:induction false} LiveMeaning(rows: seq<Row>, low: nat, row: Row)
    ensures row in Live(rows, low) <==> row in rows && row.chapter >= low
  {
    if rows != [] {
      LiveMeaning(rows[1..], low, row);
      assert rows == [rows[0]] + rows[1..];
    }
  }
}
