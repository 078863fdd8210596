/** One zone of a mutable delta index (uds/deltaIndex.c). */
module DeltaIndex {
  import opened Bits
  import opened Numbers
  import opened DeltaCode
  import opened DeltaLayout
  import opened DeltaEdit
  import opened DeltaSave
  import opened DeltaMemory
  import opened DeltaEntries
  import opened DeltaEntryIO
  import opened DeltaSearch
  import opened DeltaIndexSpec
  import opened UdsStatus

  class DeltaIndexZone {
    const zone: Zone
    const format: Format
    /** The entries of each list: the meaning of its bits. */
    ghost var entries: seq<seq<Entry>>
    var recordCount: int
    var collisionCount: int
    /** How far the counts are off because a restore gives all of them to one zone. */
    ghost var recordSkew: int
    ghost var collisionSkew: int

    ghost predicate Valid()
      reads this, zone, zone.memory
    {
      && DataValid()
      && recordCount == Records(entries) + recordSkew && collisionCount == Collisions(entries) + collisionSkew
    }

    /** The invariant without the counts. */
    ghost predicate DataValid()
      reads this`entries, zone, zone.memory
    {
      && zone.Valid() && !zone.Restoring() && IsFormat(format)
      && format.coding.incrKeys > 0 && |entries| == |zone.lists| - 2
      && AllGood(format, entries, zone.Bits(), zone.lists)
    }

    /** An index of empty lists. */
    constructor (size: nat, firstList: nat, numLists: nat, tag: char, format: Format)
      requires IsFormat(format) && size >= POST_FIELD_GUARD_BYTES && numLists > 0
      ensures Valid() && fresh(zone) && fresh(zone.memory)
      ensures entries == seq(numLists, _ => []) && !zone.writing && this.format == format
      ensures recordSkew == collisionSkew == 0 && zone.firstList == firstList && zone.tag == tag
      ensures zone.memory.Length == size
    {
      hide IsFormat, Contents, ListBits, EmptyHeaders;
      this.format := format;
      zone := new Zone(size, firstList, numLists, tag);
      entries := seq(numLists, _ => []);
      recordCount, collisionCount := 0, 0;
      recordSkew, collisionSkew := 0, 0;
      new;
      FormatBasics(format);
      NoCounts(entries);
      forall k | 0 <= k < |entries|
        ensures GoodList(format, entries[k], zone.Bits()[k + 1], zone.lists[k + 1])
      {
        assert zone.Bits()[k + 1] == ListBits(zone.memory[..], zone.lists[k + 1]) == [];
        EmptyIsGood(format, zone.lists[k + 1]);
      }
    }

    /** Empty the index. A save in progress stays good if and only if it has written
        all lists. */
    method Clear()
      requires Valid()
      modifies this, zone`lists, zone.memory
      ensures Valid() <==> !zone.writing || zone.numTransfers == 0
      ensures entries == seq(|old(entries)|, _ => []) && recordSkew == collisionSkew == 0
      ensures |zone.lists| == |old(zone.lists)| && zone.Placed() && zone.Empty()
    {
      hide IsFormat, Contents, ListBits, WellPlaced, Snapshot, EmptyHeaders, Records, Collisions;
      WellPlacedBasics(zone.lists, zone.memory.Length);
      zone.Clear();
      entries := seq(|entries|, _ => []);
      recordCount, collisionCount := 0, 0;
      recordSkew, collisionSkew := 0, 0;
      NoCounts(entries);
      forall k | 0 <= k < |entries|
        ensures GoodList(format, entries[k], zone.Bits()[k + 1], zone.lists[k + 1])
      {
        assert zone.Bits()[k + 1] == ListBits(zone.memory[..], zone.lists[k + 1]) == [] by {
          WellPlacedList(zone.lists, zone.memory.Length, k + 1);
        }
        EmptyIsGood(format, zone.lists[k + 1]);
      }
    }

    /** The parts of the invariant that do not mention the bits. */
    lemma Basics()
      requires Valid()
      ensures DataValid() && IsFormat(format) && format.coding.incrKeys > 0
      ensures |zone.flags| == |entries| == |zone.lists| - 2
      ensures forall k :: 0 <= k < |entries| ==> WellFormed(format, entries[k])
    {
      forall k | 0 <= k < |entries|
        ensures WellFormed(format, entries[k])
      {
        AllGoodParts(format, entries, zone.Bits(), zone.lists, k);
      }
    }

    /** What a search of one list needs. */
    lemma ListIsStored(list: nat)
      requires DataValid() && list < |entries|
      ensures Stored(format, zone.memory[..], zone.lists[list + 1], entries[list])
    {
      WellPlacedList(zone.lists, zone.memory.Length, list + 1);
    }

    /** The first entry with a key is not a collision. */
    lemma SeekEndsPlain(list: nat, key: nat)
      requires DataValid() && list < |entries|
      ensures var j := Seek(entries[list], key, 0); j < |entries[list]| ==> entries[list][j].name.None?
    {
      hide WellFormed, IsSeek, IsFormat, WellPlaced, Contents;
      var j := Seek(entries[list], key, 0);
      AllGoodParts(format, entries, zone.Bits(), zone.lists, list);
      SeekMeaning(entries[list], key, 0);
      if j < |entries[list]| {
        SeekPlain(format, entries[list], key, j);
      }
    }

    /** Prepare to search a list, from the remembered position if that is before
        the key. A search that may lead to a change first writes the list to a save
        in progress. */
    method StartSearch(list: nat, key: nat, readOnly: bool) returns (status: Status, cur: Cursor, ghost i: nat)
      requires Valid()
      modifies zone`flags, zone`numTransfers, zone`written
      ensures Valid() && status == if list < |entries| then Success else CorruptData
      ensures status.Success? ==>
        && cur.list == list && Ready(format, entries[list], cur, i)
        && (i > 0 ==> KeySum(entries[list][..i]) < key)
      ensures status.Success? && !readOnly ==> !zone.flags[list]
    {
      hide GoodList, WellPlaced, Contents, Snapshot, IsFormat, KeySum, OffsetOf;
      i := 0;
      if list >= |zone.lists| - 2 {
        return CorruptData, Cursor(0, 0, 0, 0, 0, false, false), i;
      }
      if !readOnly {
        zone.LazyFlush(list);
      }
      var l := zone.lists[list + 1];
      ghost var es := entries[list];
      GoodPosition(format, es, zone.Bits()[list + 1], l);
      if key > l.saveKey {
        i :| 0 <= i <= |es| && RememberedAt(format, es, l.saveOffset, l.saveKey, i);
        cur := Cursor(list, l.saveKey, l.saveOffset, 0, 0, false, false);
      } else {
        ListStart(format, es);
        cur := Cursor(list, 0, 0, 0, 0, false, false);
      }
      status := Success;
    }

    /** The value of the entry at a cursor. */
    method GetValue(cur: Cursor, ghost j: nat) returns (value: nat)
      requires Valid() && cur.list < |entries| && At(format, entries[cur.list], cur, j) && !cur.atEnd
      ensures value == entries[cur.list][j].value
    {
      hide WellPlaced, Contents, AllGood, IsFormat, EntryCode, KeySum, GetField, Val, Stored;
      var l := zone.lists[cur.list + 1];
      ListIsStored(cur.list);
      StoredValue(format, zone.memory[..], l, entries[cur.list], j);
      value := Val(GetField(zone.memory[..], l.start + cur.offset, format.valueBits));
    }

    /** The name of the collision at a cursor. */
    method GetCollision(cur: Cursor, ghost j: nat) returns (status: Status, name: seq<Byte>)
      requires Valid() && cur.list < |entries| && At(format, entries[cur.list], cur, j)
      ensures status == if cur.atEnd || !cur.isCollision then BadState else Success
      ensures status.Success? ==> name == entries[cur.list][j].name.value
    {
      hide WellPlaced, Contents, AllGood, IsFormat, EntryCode, KeySum, Stream, ListBits, ListCode, WellFormed;
      if cur.atEnd || !cur.isCollision {
        return BadState, [];
      }
      var l := zone.lists[cur.list + 1];
      ListIsStored(cur.list);
      NameInMemory(format, zone.memory[..], l, entries[cur.list], j);
      name := GetBytes(zone.memory, l.start + cur.offset + cur.entryBits - COLLISION_BITS, COLLISION_BYTES);
      StreamIsInjective(name, entries[cur.list][j].name.value);
      status := Success;
    }

    /** Remember the position of an entry, for the next search. */
    method Remember(cur: Cursor, ghost j: nat) returns (status: Status)
      requires Valid() && cur.list < |entries| && At(format, entries[cur.list], cur, j)
      modifies zone`lists
      ensures Valid() && status == if cur.isCollision then AssertionFailed else Success
      ensures SamePlaces(old(zone.lists), zone.lists)
      ensures cur.isCollision ==> zone.lists == old(zone.lists)
      ensures !cur.isCollision ==> zone.lists[cur.list + 1].saveOffset == cur.offset
    {
      hide GoodList, WellPlaced, Contents, Snapshot, IsFormat, KeySum, OffsetOf, Stream;
      if cur.isCollision {
        return AssertionFailed;
      }
      var l := zone.lists[cur.list + 1];
      ghost var ls, bits := zone.lists, zone.Bits();
      RememberEntry(format, entries[cur.list], bits[cur.list + 1], cur, j, l);
      zone.lists := zone.lists[cur.list + 1 := l.(saveKey := cur.key - cur.delta, saveOffset := cur.offset)];
      SamePlacesKept(ls, zone.lists, zone.memory[..]);
      return Success;
    }

    /** Find the entry of a name, or the place where it belongs. The result does
        not depend on where the search starts. */
    method Get(list: nat, key: nat, name: Name, readOnly: bool) returns (status: Status, cur: Cursor)
      requires Valid()
      modifies zone`lists, zone`flags, zone`numTransfers, zone`written
      ensures Valid() && status == if list < |entries| then Success else CorruptData
      ensures SamePlaces(old(zone.lists), zone.lists)
      ensures status.Success? ==> cur.list == list && At(format, entries[list], cur, Locate(entries[list], key, name))
      ensures status.Success? && !readOnly ==> !zone.flags[list]
    {
      hide GoodList, WellPlaced, Contents, Snapshot, IsFormat, KeySum, OffsetOf, Stored, Stream, SeekName;
      ghost var i;
      status, cur, i := StartSearch(list, key, readOnly);
      if !status.Success? {
        return;
      }
      ghost var es := entries[list];
      ListIsStored(list);
      cur := SeekKey(format, zone.memory, zone.lists[list + 1], cur, key, es, i);
      ghost var j := Seek(es, key, 0);
      SeekEndsPlain(list, key);
      status := Remember(cur, j);
      if !cur.atEnd && key == cur.key {
        ListIsStored(list);
        cur := SeekCollision(format, zone.memory, zone.lists[list + 1], cur, name, es, j);
      }
    }

    /** Encode an entry at an offset of a list. */
    method WriteEntry(list: nat, offset: nat, e: Entry, entryBits: nat)
      requires zone.Placed() && IsFormat(format) && format.coding.incrKeys > 0 && list < |zone.lists| - 2
      requires entryBits == |EntryCode(format, e)| && e.value < Pow2(format.valueBits)
      requires offset + entryBits <= zone.lists[list + 1].size
      modifies zone.memory
      ensures zone.Placed()
      ensures zone.Bits() ==
        old(zone.Bits())[list + 1 := Splice(old(zone.Bits())[list + 1], offset, EntryCode(format, e))]
    {
      hide WellPlaced, Contents, IsFormat, Stream, Splice, EntryCode, Pow2;
      ghost var m0 := zone.memory[..];
      var l := zone.lists[list + 1];
      WellPlacedList(zone.lists, zone.memory.Length, list + 1);
      EncodeEntry(format, zone.memory, l.start + offset, e, entryBits);
      WriteInsideList(m0, zone.memory[..], zone.lists, list + 1, offset, EntryCode(format, e));
    }

    /** Insert bits into a list and encode a new entry there, after re-encoding the
        entry that follows it if there is one to re-encode. */
    method InsertEntry(list: nat, offset: nat, size: nat, e: Entry, eBits: nat, next: Option<Entry>, nextBits: nat,
                       ghost j: nat, ghost was: seq<Entry>, ghost after: seq<Entry>)
      returns (status: Status)
      requires DataValid() && list < |entries| && !zone.flags[list]
      requires eBits == |EntryCode(format, e)| && (next.Some? ==> nextBits == |EntryCode(format, next.value)|)
      requires IsEdit(format, entries[list], j, was, Inserted(e, next), after)
      requires offset == OffsetOf(format, entries[list], j)
      requires size + |ListCode(format, was)| == |ListCode(format, Inserted(e, next))|
      requires Remembered(format, after, zone.lists[list + 1].saveOffset, zone.lists[list + 1].saveKey)
      modifies this`entries, zone`lists, zone.memory
      ensures status.Success? || status.Overflow?
      ensures status.Success? <==>
        CanGrow(old(zone.lists), zone.memory.Length, list + 1,
          |ListCode(format, after)| - |ListCode(format, old(entries)[list])|)
      ensures status.Overflow? ==>
        entries == old(entries) && zone.lists == old(zone.lists) && zone.memory[..] == old(zone.memory[..])
      ensures status.Success? ==> entries == old(entries)[list := after]
      ensures DataValid()
    {
      hide WellPlaced, Contents, IsFormat, EntryCode, ListCode, Pow2, Snapshot, WellFormed, Remembered, AllGood,
        Inserted, SameSearch, CanGrow;
      ghost var es, bits, ls := entries[list], zone.Bits(), zone.lists;
      AllGoodParts(format, entries, bits, ls, list);
      EditedCode(format, es, j, was, Inserted(e, next));
      EditValues(format, es, j, was, Inserted(e, next), after);
      status := InsertCode(list, offset, size, e, eBits, next, nextBits, |ListCode(format, was)|);
      if status.Overflow? {
        return;
      }
      SameSearchParts(ls, zone.lists);
      GoodEdit(format, entries, bits, ls, zone.Bits(), zone.lists, list, after);
      SnapshotEdit(zone.writing, bits, zone.Bits(), zone.flags, zone.tag, zone.firstList, zone.written, zone.image);
      entries := entries[list := after];
    }

    /** The bits part of InsertEntry. */
    method InsertCode(list: nat, offset: nat, size: nat, e: Entry, eBits: nat, next: Option<Entry>, nextBits: nat,
        ghost k: nat)
      returns (status: Status)
      requires zone.Placed() && IsFormat(format) && format.coding.incrKeys > 0 && list < |zone.lists| - 2
      requires eBits == |EntryCode(format, e)| && (next.Some? ==> nextBits == |EntryCode(format, next.value)|)
      requires offset + k <= zone.lists[list + 1].size && size + k == |ListCode(format, Inserted(e, next))|
      requires forall i :: 0 <= i < |Inserted(e, next)| ==> Inserted(e, next)[i].value < Pow2(format.valueBits)
      modifies zone`lists, zone.memory
      ensures zone.Placed() && (status.Success? || status.Overflow?)
      ensures status.Success? <==> CanGrow(old(zone.lists), zone.memory.Length, list + 1, size)
      ensures status.Overflow? ==> zone.lists == old(zone.lists) && zone.memory[..] == old(zone.memory[..])
      ensures SameSearch(old(zone.lists), zone.lists)
      ensures status.Success? ==>
        var before := old(zone.Bits())[list + 1];
        zone.Bits() ==
          old(zone.Bits())[list + 1 := before[..offset] + ListCode(format, Inserted(e, next)) + before[offset + k..]]
    {
      hide WellPlaced, Contents, IsFormat, Stream, Splice, EntryCode, ListCode, Pow2, Opened, BytesUsed, CanGrow;
      ghost var bits := zone.Bits();
      assert |bits[list + 1]| ==
        zone.lists[list + 1].size by { WellPlacedList(zone.lists, zone.memory.Length, list + 1); }
      status := zone.InsertBits(list + 1, offset, size);
      if status.Overflow? {
        return;
      }
      ghost var gap := zone.Bits()[list + 1];
      InsertedCode(format, bits[list + 1], gap, offset, size, e, next, k);
      assert |gap| == zone.lists[list + 1].size by { WellPlacedList(zone.lists, zone.memory.Length, list + 1); }
      assert Inserted(e, next)[0] == e;
      if next.Some? {
        assert Inserted(e, next)[1] == next.value;
        WriteEntry(list, offset + eBits, next.value, nextBits);
      }
      WriteEntry(list, offset, e, eBits);
    }

    /** Add a record at the place a search found. A plain record goes before the
        entry found, or at the end; a collision goes right after it. */
    method Put(cur: Cursor, key: nat, value: nat, name: Option<Name>, ghost j: nat)
      returns (status: Status, cur': Cursor)
      requires Valid() && cur.list < |entries| && At(format, entries[cur.list], cur, j) && !zone.flags[cur.list]
      requires key <= format.maxKey && value < Pow2(format.valueBits)
      requires name.None? && j > 0 ==> KeySum(entries[cur.list][..j]) != key
      modifies this`entries, this`recordCount, this`collisionCount, zone`lists, zone.memory
      ensures Valid()
      ensures cur.isCollision ==> status.DuplicateName?
      ensures !cur.isCollision && name.Some? ==>
        if cur.atEnd then status.BadState?
        else if key != cur.key then status.AssertionFailed?
        else status.Success? || status.Overflow?
      ensures !cur.isCollision && name.None? ==>
        if (!cur.atEnd && key >= cur.key) || key < KeySum(old(entries)[cur.list][..j]) then status.AssertionFailed?
        else status.Success? || status.Overflow?
      ensures !status.Success? ==> entries == old(entries) && zone.Bits() == old(zone.Bits())
      ensures status.Success? || status.Overflow? ==>
        && PutAllowed(old(entries)[cur.list], j, key, name)
        && (status.Success? <==>
              CanGrow(old(zone.lists), zone.memory.Length, cur.list + 1,
                PutBits(format, old(entries)[cur.list], j, key, value, name)))
      ensures status.Success? ==>
        && var es := old(entries)[cur.list];
        && entries == old(entries)[cur.list := PutEntry(es, j, key, value, name)]
        && At(format, entries[cur.list], cur', if name.Some? then j + 1 else j) && cur'.list == cur.list
    {
      hide DeltaIndexZone.DataValid, At, PutAllowed, PutEntry, WellPlaced, Contents, KeySum, Pow2, Records, Collisions,
        Names, CanGrow, PutBits, SamePlaces;
      cur' := cur;
      if cur.isCollision {
        return DuplicateName, cur';
      }
      ghost var ess, ls := entries, zone.lists;
      Basics();
      RememberEarlier(cur, j);
      ghost var ls1 := zone.lists;
      status, cur' := PutAt(cur, key, value, name, j);
      if status.Success? || status.Overflow? {
        SamePlacesRoom(ls, ls1, zone.memory.Length, cur.list + 1, PutBits(format, ess[cur.list], j, key, value, name));
      }
      if status.Success? {
        recordCount := recordCount + 1;
        collisionCount := collisionCount + (if name.Some? then 1 else 0);
        PutCounts(ess, cur.list, j, key, value, name);
      }
    }

    /** Do not remember a position behind the entry at the cursor. */
    method RememberEarlier(cur: Cursor, ghost j: nat)
      requires Valid() && cur.list < |entries| && At(format, entries[cur.list], cur, j) && !cur.isCollision
      modifies zone`lists
      ensures Valid() && zone.Bits() == old(zone.Bits()) && SamePlaces(old(zone.lists), zone.lists)
      ensures |zone.lists| == old(|zone.lists|) && zone.lists[cur.list + 1].saveOffset <= cur.offset
    {
      hide WellPlaced, Contents, Snapshot, IsFormat, AllGood, At, Records, Collisions;
      if cur.offset < zone.lists[cur.list + 1].saveOffset {
        ghost var ls := zone.lists;
        var status := Remember(cur, j);
        SamePlacesKept(ls, zone.lists, zone.memory[..]);
      }
    }

    /** Add a record at a place, without counting it. */
    method PutAt(cur: Cursor, key: nat, value: nat, name: Option<Name>, ghost j: nat)
      returns (status: Status, cur': Cursor)
      requires DataValid() && cur.list < |entries| && At(format, entries[cur.list], cur, j) && !zone.flags[cur.list] &&
        !cur.isCollision
      requires key <= format.maxKey && value < Pow2(format.valueBits) &&
        zone.lists[cur.list + 1].saveOffset <= cur.offset
      requires name.None? && j > 0 ==> KeySum(entries[cur.list][..j]) != key
      modifies this`entries, zone`lists, zone.memory
      ensures DataValid()
      ensures name.Some? ==>
        if cur.atEnd then status.BadState?
        else if key != cur.key then status.AssertionFailed?
        else status.Success? || status.Overflow?
      ensures name.None? ==>
        if (!cur.atEnd && key >= cur.key) || key < KeySum(old(entries)[cur.list][..j]) then status.AssertionFailed?
        else status.Success? || status.Overflow?
      ensures !status.Success? ==> entries == old(entries) && zone.Bits() == old(zone.Bits())
      ensures status.Success? || status.Overflow? ==>
        && PutAllowed(old(entries)[cur.list], j, key, name)
        && (status.Success? <==>
              CanGrow(old(zone.lists), zone.memory.Length, cur.list + 1,
                PutBits(format, old(entries)[cur.list], j, key, value, name)))
      ensures status.Success? ==>
        && var es := old(entries)[cur.list];
        && entries == old(entries)[cur.list := PutEntry(es, j, key, value, name)]
        && At(format, entries[cur.list], cur', if name.Some? then j + 1 else j) && cur'.list == cur.list
    {
      hide WellPlaced, Contents, IsFormat, EntryCode, ListCode, Pow2, Snapshot, WellFormed, Remembered, AllGood, KeySum,
        SamePlaces, CanGrow;
      cur' := cur;
      ghost var es := entries[cur.list];
      AtKeys(format, es, cur, j);
      if name.Some? {
        if cur.atEnd {
          return BadState, cur';
        }
        if key != cur.key {
          return AssertionFailed, cur';
        }
        status, cur' := PutCollision(cur, value, name.value, j);
      } else if cur.atEnd {
        if key < cur.key {
          return AssertionFailed, cur';
        }
        status, cur' := PutAtEnd(cur, key, value, j);
      } else {
        if key >= cur.key || key < cur.key - cur.delta {
          return AssertionFailed, cur';
        }
        status, cur' := PutBefore(cur, key, value, j);
      }
    }

    /** Insert a collision after the entry at the cursor. */
    method PutCollision(cur: Cursor, value: nat, name: Name, ghost j: nat) returns (status: Status, cur': Cursor)
      requires DataValid() && cur.list < |entries| && At(format, entries[cur.list], cur, j) && !zone.flags[cur.list]
      requires value < Pow2(format.valueBits) && !cur.atEnd && !cur.isCollision
      requires zone.lists[cur.list + 1].saveOffset <= cur.offset
      modifies this`entries, zone`lists, zone.memory
      ensures DataValid() && (status.Success? || status.Overflow?)
      ensures status.Success? <==> CanGrow(old(zone.lists), zone.memory.Length, cur.list + 1,
        |ListCode(format, InsertCollision(old(entries)[cur.list], j, value, name))| - |ListCode(format,
          old(entries)[cur.list])|)
      ensures status.Overflow? ==> entries == old(entries) && zone.Bits() == old(zone.Bits())
      ensures status.Success? ==>
        && entries == old(entries)[cur.list := InsertCollision(old(entries)[cur.list], j, value, name)]
        && At(format, entries[cur.list], cur', j + 1) && cur'.list == cur.list
    {
      hide WellPlaced, Contents, IsFormat, EntryCode, ListCode, Pow2, Snapshot, WellFormed, Remembered, AllGood, KeySum,
        CanGrow;
      ghost var es := entries[cur.list];
      ghost var after := InsertCollision(es, j, value, name);
      var e := Entry(0, value, Some(name));
      cur' := cur.(offset := cur.offset + cur.entryBits, delta := 0, isCollision := true,
                   entryBits := SetDeltaEntryBits(format, 0) + COLLISION_BITS);
      AllGoodParts(format, entries, zone.Bits(), zone.lists, cur.list);
      CollisionEdit(format, es, cur, j, value, name, zone.lists[cur.list + 1]);
      status := InsertEntry(cur.list, cur'.offset, cur'.entryBits, e, cur'.entryBits, None, 0, j + 1, [], after);
    }

    /** Append a plain entry to a list. */
    method PutAtEnd(cur: Cursor, key: nat, value: nat, ghost j: nat) returns (status: Status, cur': Cursor)
      requires DataValid() && cur.list < |entries| && At(format, entries[cur.list], cur, j) && !zone.flags[cur.list]
      requires key <= format.maxKey && value < Pow2(format.valueBits) && cur.atEnd
      requires cur.key <= key && (j > 0 ==> KeySum(entries[cur.list][..j]) < key)
      requires zone.lists[cur.list + 1].saveOffset <= cur.offset
      modifies this`entries, zone`lists, zone.memory
      ensures DataValid() && (status.Success? || status.Overflow?)
      ensures j <= |old(entries)[cur.list]| && KeySum(old(entries)[cur.list][..j]) <= key &&
        j == |old(entries)[cur.list]|
      ensures status.Success? <==> CanGrow(old(zone.lists), zone.memory.Length, cur.list + 1,
        |ListCode(format, InsertPlain(old(entries)[cur.list], j, key, value))| - |ListCode(format,
          old(entries)[cur.list])|)
      ensures status.Overflow? ==> entries == old(entries) && zone.Bits() == old(zone.Bits())
      ensures status.Success? ==>
        && var es := old(entries)[cur.list];
        && entries == old(entries)[cur.list := InsertPlain(es, j, key, value)]
        && At(format, entries[cur.list], cur', j) && cur'.list == cur.list
    {
      hide WellPlaced, Contents, IsFormat, EntryCode, ListCode, Pow2, Snapshot, WellFormed, Remembered, AllGood, KeySum,
        CanGrow;
      ghost var es := entries[cur.list];
      AtKeys(format, es, cur, j);
      ghost var after := InsertPlain(es, j, key, value);
      var e := Entry(key - cur.key, value, None);
      cur' := cur.(delta := key - cur.key, key := key, atEnd := false,
        entryBits := SetDeltaEntryBits(format, key - cur.key));
      AllGoodParts(format, entries, zone.Bits(), zone.lists, cur.list);
      AppendEdit(format, es, cur, key, value, zone.lists[cur.list + 1]);
      status := InsertEntry(cur.list, cur'.offset, cur'.entryBits, e, cur'.entryBits, None, 0, j, [], after);
    }

    /** Insert a plain entry before the entry at the cursor, which is re-encoded
        with the rest of its delta. */
    method PutBefore(cur: Cursor, key: nat, value: nat, ghost j: nat) returns (status: Status, cur': Cursor)
      requires DataValid() && cur.list < |entries| && At(format, entries[cur.list], cur, j) && !zone.flags[cur.list]
      requires value < Pow2(format.valueBits) && !cur.atEnd && !cur.isCollision
      requires KeySum(entries[cur.list][..j]) <= key < cur.key && (j > 0 ==> KeySum(entries[cur.list][..j]) < key)
      requires zone.lists[cur.list + 1].saveOffset <= cur.offset
      modifies this`entries, zone`lists, zone.memory
      ensures DataValid() && (status.Success? || status.Overflow?)
      ensures status.Success? <==> CanGrow(old(zone.lists), zone.memory.Length, cur.list + 1,
        |ListCode(format, InsertPlain(old(entries)[cur.list], j, key, value))| - |ListCode(format,
          old(entries)[cur.list])|)
      ensures status.Overflow? ==> entries == old(entries) && zone.Bits() == old(zone.Bits())
      ensures status.Success? ==>
        && entries == old(entries)[cur.list := InsertPlain(old(entries)[cur.list], j, key, value)]
        && At(format, entries[cur.list], cur', j) && cur'.list == cur.list
    {
      hide WellPlaced, Contents, IsFormat, EntryCode, ListCode, Pow2, Snapshot, WellFormed, Remembered, AllGood, KeySum,
        GetField, Val, CanGrow;
      ghost var es := entries[cur.list];
      AtKeys(format, es, cur, j);
      ghost var after := InsertPlain(es, j, key, value);
      var l := zone.lists[cur.list + 1];
      ListIsStored(cur.list);
      StoredValue(format, zone.memory[..], l, es, j);
      var nextValue := Val(GetField(zone.memory[..], l.start + cur.offset, format.valueBits));
      var e := Entry(key - (cur.key - cur.delta), value, None);
      var next := Entry(cur.key - key, nextValue, None);
      var nextBits := SetDeltaEntryBits(format, cur.key - key);
      cur' := cur.(delta := e.delta, key := key, entryBits := SetDeltaEntryBits(format, e.delta));
      AllGoodParts(format, entries, zone.Bits(), zone.lists, cur.list);
      MiddleEdit(format, es, cur, j, key, value, l);
      status := InsertEntry(cur.list, cur'.offset, cur'.entryBits + nextBits - cur.entryBits, e, cur'.entryBits,
        Some(next), nextBits, j, [es[j]], after);
    }

    /** Remove an entry and advance to the next. */
    method Remove(cur: Cursor, ghost j: nat) returns (status: Status, cur': Cursor)
      requires Valid() && cur.list < |entries| && At(format, entries[cur.list], cur, j) && !zone.flags[cur.list]
      modifies this`entries, this`recordCount, this`collisionCount, zone`lists, zone.memory
      ensures Valid() && status == if cur.atEnd then BadState else Success
      ensures cur.atEnd ==> entries == old(entries) && zone.Bits() == old(zone.Bits())
      ensures !cur.atEnd ==>
        && entries == old(entries)[cur.list := RemoveEntry(old(entries)[cur.list], j)]
        && At(format, entries[cur.list], cur', j) && cur'.list == cur.list
    {
      hide WellPlaced, Contents, IsFormat, EntryCode, ListCode, Pow2, Snapshot, WellFormed, Remembered, AllGood, KeySum,
        SameSearch, Stored;
      if cur.atEnd {
        return BadState, cur;
      }
      ghost var es, ess := entries[cur.list], entries;
      AtIsReady(format, es, cur, j);
      ListIsStored(cur.list);
      var next: Cursor;
      status, next := Next(format, zone.memory, zone.lists[cur.list + 1], cur, es, j + 1);
      cur' := RemoveBits(cur, next, j);
      if cur.isCollision || (!next.atEnd && next.isCollision) {
        collisionCount := collisionCount - 1;
      }
      recordCount := recordCount - 1;
      RemoveCounts(ess, cur.list, j);
    }

    /** Remove the bits of an entry, and forget a position behind it. */
    method RemoveBits(cur: Cursor, next: Cursor, ghost j: nat) returns (cur': Cursor)
      requires DataValid() && cur.list < |entries| && At(format, entries[cur.list], cur, j) && !zone.flags[cur.list]
      requires !cur.atEnd && At(format, entries[cur.list], next, j + 1) && next.list == cur.list
      modifies this`entries, zone`lists, zone.memory
      ensures DataValid()
      ensures entries == old(entries)[cur.list := RemoveEntry(old(entries)[cur.list], j)]
      ensures At(format, entries[cur.list], cur', j) && cur'.list == cur.list
    {
      hide WellPlaced, Contents, IsFormat, EntryCode, ListCode, Pow2, Snapshot, WellFormed, Remembered, AllGood, KeySum,
        At, RemoveEntry, OffsetOf, Forgets;
      ghost var es, bits, ls := entries[cur.list], zone.Bits(), zone.lists;
      AtOffset(format, es, cur, j);
      ghost var after := RemoveEntry(es, j);
      AllGoodParts(format, entries, bits, ls, cur.list);
      cur' := RemoveCode(cur, next, j);
      ForgetsParts(ls, zone.lists, cur.list + 1, cur.offset);
      RemovedPosition(format, es, j, ls[cur.list + 1], zone.lists[cur.list + 1], cur.offset);
      RemovedIsGood(format, es, j);
      GoodEdit(format, entries, bits, ls, zone.Bits(), zone.lists, cur.list, after);
      SnapshotEdit(zone.writing, bits, zone.Bits(), zone.flags, zone.tag, zone.firstList, zone.written, zone.image);
      entries := entries[cur.list := after];
    }

    /** Remove the bits of an entry from its list. */
    method RemoveCode(cur: Cursor, next: Cursor, ghost j: nat) returns (cur': Cursor)
      requires DataValid() && cur.list < |entries| && At(format, entries[cur.list], cur, j)
      requires !cur.atEnd && At(format, entries[cur.list], next, j + 1) && next.list == cur.list
      modifies zone`lists, zone.memory
      ensures zone.Placed() && Forgets(old(zone.lists), zone.lists, cur.list + 1, cur.offset)
      ensures var after := RemoveEntry(entries[cur.list], j);
        zone.Bits() == old(zone.Bits())[cur.list + 1 := ListCode(format, after)] && At(format, after, cur', j) &&
          cur'.list == cur.list
    {
      hide WellPlaced, Contents, IsFormat, EntryCode, ListCode, Snapshot, AllGood, KeySum, At, RemoveEntry, OffsetOf;
      ghost var es, ls := entries[cur.list], zone.lists;
      AtOffset(format, es, cur, j);
      AtOffset(format, es, next, j + 1);
      if cur.isCollision || next.atEnd {
        cur' := DropLast(cur, next, j);
      } else {
        cur' := RemoveBefore(cur, next, j);
      }
      SameSearchParts(ls, zone.lists);
      ghost var ls1 := zone.lists;
      var l := zone.lists[cur.list + 1];
      if cur'.offset < l.saveOffset {
        zone.lists := zone.lists[cur.list + 1 := l.(saveKey := 0, saveOffset := 0)];
      }
      SamePlacesKept(ls1, zone.lists, zone.memory[..]);
    }

    /** Delete a collision or the last entry. */
    method DropLast(cur: Cursor, next: Cursor, ghost j: nat) returns (cur': Cursor)
      requires DataValid() && cur.list < |entries| && At(format, entries[cur.list], cur, j)
      requires !cur.atEnd && At(format, entries[cur.list], next, j + 1) && next.list == cur.list &&
        (cur.isCollision || next.atEnd)
      modifies zone`lists, zone.memory
      ensures zone.Placed() && SameSearch(old(zone.lists), zone.lists)
      ensures var after := RemoveEntry(entries[cur.list], j);
        && zone.Bits() == old(zone.Bits())[cur.list + 1 := ListCode(format, after)]
        && At(format, after, cur', j) && cur'.list == cur.list && cur'.offset == cur.offset
        && WellFormed(format, after)
    {
      hide WellPlaced, Contents, IsFormat, EntryCode, ListCode, Snapshot, WellFormed, Remembered, AllGood, KeySum,
        SameSearch;
      ghost var es, bits := entries[cur.list], zone.Bits();
      AllGoodParts(format, entries, bits, zone.lists, cur.list);
      assert |bits[cur.list + 1]| ==
        zone.lists[cur.list + 1].size by { WellPlacedList(zone.lists, zone.memory.Length, cur.list + 1); }
      DropEdit(format, es, cur, j, bits[cur.list + 1]);
      DropCursor(format, es, cur, next, j);
      zone.DeleteBits(cur.list + 1, cur.offset, cur.entryBits);
      cur' := next.(offset := cur.offset, key := if cur.isCollision then next.key else next.key - cur.delta);
    }

    /** Delete a plain entry and re-encode the next with the sum of their deltas. */
    method RemoveBefore(cur: Cursor, next: Cursor, ghost j: nat) returns (cur': Cursor)
      requires DataValid() && cur.list < |entries| && At(format, entries[cur.list], cur, j)
      requires !cur.atEnd && !cur.isCollision && At(format, entries[cur.list], next, j + 1) && !next.atEnd &&
        next.list == cur.list
      modifies zone`lists, zone.memory
      ensures zone.Placed() && SameSearch(old(zone.lists), zone.lists)
      ensures var after := RemoveEntry(entries[cur.list], j);
        && zone.Bits() == old(zone.Bits())[cur.list + 1 := ListCode(format, after)]
        && At(format, after, cur', j) && cur'.list == cur.list && cur'.offset == cur.offset
        && WellFormed(format, after)
    {
      hide WellPlaced, Contents, IsFormat, EntryCode, ListCode, Pow2, Snapshot, WellFormed, Remembered, AllGood, KeySum,
        GetField, Val, Splice;
      ghost var es, bits := entries[cur.list], zone.Bits();
      AllGoodParts(format, entries, bits, zone.lists, cur.list);
      var l := zone.lists[cur.list + 1];
      ListIsStored(cur.list);
      StoredValue(format, zone.memory[..], l, es, j + 1);
      var nextValue := Val(GetField(zone.memory[..], l.start + next.offset, format.valueBits));
      var oldSize := cur.entryBits + next.entryBits;
      var e := Entry(cur.delta + next.delta, nextValue, None);
      cur' := next.(isCollision := false, delta := e.delta, entryBits := SetDeltaEntryBits(format, e.delta),
        offset := cur.offset);
      MergeEdit(format, es, cur, next, j, bits[cur.list + 1]);
      zone.DeleteBits(cur.list + 1, cur.offset, oldSize - cur'.entryBits);
      assert |zone.Bits()[cur.list + 1]| ==
        zone.lists[cur.list + 1].size by { WellPlacedList(zone.lists, zone.memory.Length, cur.list + 1); }
      WriteEntry(cur.list, cur.offset, e, cur'.entryBits);
    }

    /** Change the value of an entry. */
    method SetValue(cur: Cursor, value: nat, ghost j: nat) returns (status: Status)
      requires Valid() && cur.list < |entries| && At(format, entries[cur.list], cur, j) && !zone.flags[cur.list]
      modifies this`entries, zone.memory
      ensures Valid()
      ensures status == if cur.atEnd then BadState else if value >= Pow2(format.valueBits) then InvalidArgument
        else Success
      ensures !status.Success? ==> entries == old(entries) && zone.memory[..] == old(zone.memory[..])
      ensures status.Success? ==>
        && entries == old(entries)[cur.list := old(entries)[cur.list][j := old(entries)[cur.list][j].(value := value)]]
        && At(format, entries[cur.list], cur, j)
    {
      hide WellPlaced, Contents, IsFormat, EntryCode, ListCode, Snapshot, WellFormed, Remembered, AllGood, KeySum,
        Splice, ToBits, Names, Records, Collisions, At, OffsetOf, Pow2;
      AtKey(format, entries[cur.list], cur, j);
      if cur.atEnd {
        return BadState;
      }
      if value >= Pow2(format.valueBits) {
        return InvalidArgument;
      }
      ghost var es, bits := entries[cur.list], zone.Bits();
      ghost var after := es[j := es[j].(value := value)];
      AllGoodParts(format, entries, bits, zone.lists, cur.list);
      assert |bits[cur.list + 1]| ==
        zone.lists[cur.list + 1].size by { WellPlacedList(zone.lists, zone.memory.Length, cur.list + 1); }
      ValueEdit(format, es, j, value, cur, zone.lists[cur.list + 1]);
      WriteValue(cur.list, cur.offset, value);
      GoodEdit(format, entries, bits, zone.lists, zone.Bits(), zone.lists, cur.list, after);
      SnapshotEdit(zone.writing, bits, zone.Bits(), zone.flags, zone.tag, zone.firstList, zone.written, zone.image);
      ValueCounts(entries, cur.list, j, value);
      entries := entries[cur.list := after];
      return Success;
    }

    /** Write a value at an offset of a list. */
    method WriteValue(list: nat, offset: nat, value: nat)
      requires zone.Placed() && IsFormat(format) && list < |zone.lists| - 2
      requires value < Pow2(format.valueBits) && offset + format.valueBits <= zone.lists[list + 1].size
      modifies zone.memory
      ensures zone.Placed()
      ensures zone.Bits() ==
        old(zone.Bits())[list + 1 := Splice(old(zone.Bits())[list + 1], offset, ToBits(value, format.valueBits))]
    {
      hide WellPlaced, Contents, Stream, Splice, ToBits, IsCoding;
      ghost var m0 := zone.memory[..];
      var l := zone.lists[list + 1];
      WellPlacedList(zone.lists, zone.memory.Length, list + 1);
      assert (l.start + offset) / 8 + 4 <= zone.memory.Length;
      WriteNumber(value, zone.memory, l.start + offset, format.valueBits);
      WriteInsideList(m0, zone.memory[..], zone.lists, list + 1, offset, ToBits(value, format.valueBits));
    }
  }

  /** Headers that differ at most in what they remember. */
  ghost predicate SamePlaces(before: seq<DeltaList>, after: seq<DeltaList>) {
    && |before| == |after|
    && forall i :: 0 <= i < |before| ==> after[i].start == before[i].start && after[i].size == before[i].size
  }

  /** Only the position remembered for list k may change: it is forgotten if it is
      behind the offset. */
  ghost predicate Forgets(before: seq<DeltaList>, after: seq<DeltaList>, k: nat, offset: nat) {
    && |before| == |after|
    && forall i :: 0 <= i < |before| ==>
      if i == k && offset < before[i].saveOffset then after[i].saveOffset == 0 && after[i].saveKey == 0
      else after[i].saveOffset == before[i].saveOffset && after[i].saveKey == before[i].saveKey
  }

  lemma ForgetsParts(before: seq<DeltaList>, after: seq<DeltaList>, k: nat, offset: nat)
    requires Forgets(before, after, k, offset) && k < |before|
    ensures |after| == |before|
    ensures if offset < before[k].saveOffset then after[k].saveOffset == 0 && after[k].saveKey == 0
      else (after[k].saveOffset == before[k].saveOffset && after[k].saveKey == before[k].saveKey)
    ensures forall i :: 0 <= i < |before| && i != k ==>
      after[i].saveOffset == before[i].saveOffset && after[i].saveKey == before[i].saveKey
  {
  }

  lemma RemovedIsGood(f: Format, es: seq<Entry>, j: nat)
    requires WellFormed(f, es) && j < |es|
    ensures WellFormed(f, RemoveEntry(es, j))
  {
    RemoveEntryView(f, es, j);
  }

  lemma SameSearchParts(before: seq<DeltaList>, after: seq<DeltaList>)
    requires SameSearch(before, after)
    ensures |before| == |after|
    ensures forall i :: 0 <= i < |before| ==>
      after[i].saveOffset == before[i].saveOffset && after[i].saveKey == before[i].saveKey
  {
  }

  /** The room for a list does not depend on the remembered positions. */
  lemma SamePlacesRoom(ls: seq<DeltaList>, after: seq<DeltaList>, length: nat, i: nat, size: int)
    requires SamePlaces(ls, after)
    ensures CanGrow(ls, length, i, size) <==> CanGrow(after, length, i, size)
  {
    SamePlacesUsed(ls, after, |ls|);
  }

  lemma {:induction false} SamePlacesUsed(ls: seq<DeltaList>, after: seq<DeltaList>, n: nat)
    requires SamePlaces(ls, after) && n <= |ls|
    ensures BytesUsed(ls, n) == BytesUsed(after, n)
  {
    if n > 0 {
      SamePlacesUsed(ls, after, n - 1);
    }
  }

  lemma SamePlacesKept(ls: seq<DeltaList>, after: seq<DeltaList>, m: seq<Byte>)
    requires WellPlaced(ls, |m|) && SamePlaces(ls, after)
    ensures WellPlaced(after, |m|) && Contents(m, after) == Contents(m, ls)
  {
  }

  lemma RememberEntry(f: Format, es: seq<Entry>, bits: seq<bool>, cur: Cursor, j: nat, l: DeltaList)
    requires f.coding.incrKeys > 0 && At(f, es, cur, j) && !cur.isCollision && GoodList(f, es, bits, l)
    ensures cur.delta <= cur.key
    ensures GoodList(f, es, bits, l.(saveKey := cur.key - cur.delta, saveOffset := cur.offset))
  {
    hide KeySum, ListCode;
    if j < |es| {
      KeyStep(es, j);
    } else {
      assert es[..j] == es;
    }
    assert RememberedAt(f, es, cur.offset, cur.key - cur.delta, j);
  }

  lemma EmptyIsGood(f: Format, l: DeltaList)
    requires f.coding.incrKeys > 0 && l.saveOffset == 0 && l.saveKey == 0
    ensures GoodList(f, [], [], l)
  {
    RememberedStart(f, []);
  }

  lemma {:induction false} NoCounts(ess: seq<seq<Entry>>)
    requires forall k :: 0 <= k < |ess| ==> ess[k] == []
    ensures Records(ess) == 0 && Collisions(ess) == 0
  {
    if ess != [] {
      NoCounts(ess[..|ess| - 1]);
    }
  }

  lemma GoodPosition(f: Format, es: seq<Entry>, bits: seq<bool>, l: DeltaList)
    requires f.coding.incrKeys > 0 && GoodList(f, es, bits, l)
    ensures exists i :: 0 <= i <= |es| && RememberedAt(f, es, l.saveOffset, l.saveKey, i)
  {
  }

  lemma ListStart(f: Format, es: seq<Entry>)
    requires f.coding.incrKeys > 0
    ensures OffsetOf(f, es, 0) == 0 && KeySum(es[..0]) == 0
  {
    assert es[..0] == [];
  }
}
