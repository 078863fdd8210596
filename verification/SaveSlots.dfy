/** The save slots of an index (uds/indexLayout.c): which slot is used for the next
    save, which one is loaded, and why a crash does not lose the last save. */
module SaveSlots {
  import opened UdsStatus

  datatype SaveType = NoSave | Checkpoint | FullSave

  /** What the header of a slot says. */
  datatype Slot = Slot(saveType: SaveType, numZones: nat, timestamp: nat, nonce: nat)

  /** A slot as resetIndexSaveLayout leaves it. */
  const RESET := Slot(NoSave, 0, 0, 0)

  /** The checks of validateIndexSaveLayout. The nonce of a save depends on the volume
      and the place and time of the save. */
  predicate IsValid(nonceOf: (nat, nat) -> nat, slots: seq<Slot>, k: nat)
    requires k < |slots|
  {
    && slots[k].saveType != NoSave && slots[k].numZones != 0 && slots[k].timestamp != 0
    && slots[k].nonce == nonceOf(k, slots[k].timestamp)
  }

  /** The time of a save, or zero. */
  function SaveTime(nonceOf: (nat, nat) -> nat, slots: seq<Slot>, k: nat): nat
    requires k < |slots|
  {
    if IsValid(nonceOf, slots, k) then slots[k].timestamp else 0
  }

  /** Slot k is the oldest valid slot, or the first that is not valid. */
  ghost predicate IsOldest(nonceOf: (nat, nat) -> nat, slots: seq<Slot>, k: nat) {
    && k < |slots|
    && (forall j :: 0 <= j < |slots| ==> SaveTime(nonceOf, slots, k) <= SaveTime(nonceOf, slots, j))
    && (forall j :: 0 <= j < k ==> SaveTime(nonceOf, slots, k) < SaveTime(nonceOf, slots, j))
  }

  /** Slot k is the latest valid slot, and the first of those with its time. */
  ghost predicate IsLatest(nonceOf: (nat, nat) -> nat, slots: seq<Slot>, k: nat) {
    && k < |slots| && IsValid(nonceOf, slots, k)
    && (forall j :: 0 <= j < |slots| ==> SaveTime(nonceOf, slots, j) <= SaveTime(nonceOf, slots, k))
    && (forall j :: 0 <= j < k ==> SaveTime(nonceOf, slots, j) < SaveTime(nonceOf, slots, k))
  }

  /** The slot for the next save. */
  method SelectOldest(nonceOf: (nat, nat) -> nat, slots: seq<Slot>) returns (status: Status, k: nat)
    ensures status == if slots != [] then Success else AssertionFailed
    ensures status.Success? ==> IsOldest(nonceOf, slots, k)
  {
    k := 0;
    var oldestTime := 0;
    for i := 0 to |slots|
      invariant k <= i
      invariant i > 0 ==> k < i && oldestTime == SaveTime(nonceOf, slots, k)
      invariant forall j :: 0 <= j < i ==> oldestTime <= SaveTime(nonceOf, slots, j)
      invariant forall j :: 0 <= j < k ==> oldestTime < SaveTime(nonceOf, slots, j)
    {
      var saveTime := SaveTime(nonceOf, slots, i);
      if i == 0 || saveTime < oldestTime {
        k, oldestTime := i, saveTime;
      }
    }
    status := if slots != [] then Success else AssertionFailed;
  }

  /** The slot to load. */
  method SelectLatest(nonceOf: (nat, nat) -> nat, slots: seq<Slot>) returns (latest: Option<nat>)
    ensures latest.Some? ==> IsLatest(nonceOf, slots, latest.value)
    ensures latest.None? ==> forall j :: 0 <= j < |slots| ==> !IsValid(nonceOf, slots, j)
  {
    latest := None;
    var latestTime := 0;
    for i := 0 to |slots|
      invariant latest.Some? ==>
        latest.value < i && IsValid(nonceOf, slots, latest.value) && latestTime == slots[latest.value].timestamp
      invariant latest.None? ==> latestTime == 0
      invariant forall j :: 0 <= j < i ==> SaveTime(nonceOf, slots, j) <= latestTime
      invariant latest.Some? ==> forall j :: 0 <= j < latest.value ==> SaveTime(nonceOf, slots, j) < latestTime
    {
      if IsValid(nonceOf, slots, i) && slots[i].timestamp > latestTime {
        latest, latestTime := Some(i), slots[i].timestamp;
      }
    }
    if latest.None? {
      forall j | 0 <= j < |slots|
        ensures !IsValid(nonceOf, slots, j)
      {
        assert SaveTime(nonceOf, slots, j) <= 0;
      }
    }
  }

  /** There is only one latest slot. */
  lemma LatestIsUnique(nonceOf: (nat, nat) -> nat, slots: seq<Slot>, k: nat, l: nat)
    requires IsLatest(nonceOf, slots, k) && IsLatest(nonceOf, slots, l)
    ensures k == l
  {
    assert SaveTime(nonceOf, slots, k) == SaveTime(nonceOf, slots, l);
  }

  /** There is only one oldest slot. */
  lemma OldestIsUnique(nonceOf: (nat, nat) -> nat, slots: seq<Slot>, k: nat, l: nat)
    requires IsOldest(nonceOf, slots, k) && IsOldest(nonceOf, slots, l)
    ensures k == l
  {
    assert SaveTime(nonceOf, slots, k) == SaveTime(nonceOf, slots, l);
  }

  /** A save: its slot, its time and what was saved. */
  datatype Committed = Committed(slot: nat, time: nat, content: nat)

  class IndexSlots {
    const nonceOf: (nat, nat) -> nat
    /** The slots as the layout in memory has them, and their headers on disk. */
    var memory: seq<Slot>
    var disk: seq<Slot>
    /** What the other regions of each slot hold. */
    var data: seq<nat>
    /** The slot of a save in progress. */
    var saving: Option<nat>
    /** The last save that was committed. */
    ghost var last: Option<Committed>

    /** What is on disk is enough to find the last save. */
    ghost predicate Safe()
      reads this
    {
      && |memory| == |disk| == |data| >= 2
      && match last
         case None => forall j :: 0 <= j < |disk| ==> !IsValid(nonceOf, disk, j)
         case Some(c) =>
           IsLatest(nonceOf, disk, c.slot) && disk[c.slot].timestamp == c.time && data[c.slot] == c.content
    }

    /** Memory and disk agree, except on a save in progress, which is not on disk. */
    ghost predicate Synced()
      reads this
    {
      && |memory| == |disk| == |data| >= 2
      && (forall j :: 0 <= j < |disk| && saving != Some(j) ==> memory[j] == disk[j])
      && (saving.Some? ==> saving.value < |disk| && disk[saving.value] == RESET)
    }

    ghost predicate Valid()
      reads this
    {
      Safe() && Synced()
    }

    /** Slots that have never been saved to. */
    constructor (nonceOf: (nat, nat) -> nat, numSaves: nat)
      requires numSaves >= 2
      ensures Valid() && last == None && saving == None && this.nonceOf == nonceOf
      ensures memory == disk == seq(numSaves, _ => RESET) && |data| == numSaves
    {
      this.nonceOf := nonceOf;
      memory := seq(numSaves, _ => RESET);
      disk := seq(numSaves, _ => RESET);
      data := seq(numSaves, _ => 0);
      saving, last := None, None;
    }

    /** Find the slot to load. It is that of the last save committed, with what was
        saved. */
    method FindLatest() returns (slot: Option<nat>)
      ensures slot.Some? ==> IsLatest(nonceOf, memory, slot.value)
      ensures slot.None? ==> forall j :: 0 <= j < |memory| ==> !IsValid(nonceOf, memory, j)
      ensures Valid() && saving == None ==> (slot.Some? <==> last.Some?)
      ensures Valid() && saving == None && last.Some? ==>
        slot == Some(last.value.slot) && data[last.value.slot] == last.value.content
    {
      slot := SelectLatest(nonceOf, memory);
      if Valid() && saving == None {
        assert memory == disk;
        if last.Some? {
          LatestIsUnique(nonceOf, disk, slot.value, last.value.slot);
        }
      }
    }

    /** First part of setting up a slot: choose one and invalidate it, on disk as well.
        The last save stays safe if and only if memory does not have it as the oldest.
        If memory agrees with the disk, that is so unless all slots have the same time. */
    method Invalidate() returns (slot: nat)
      requires Safe() && saving == None
      modifies this`memory, this`disk
      ensures slot < |old(memory)| && IsOldest(nonceOf, old(memory), slot)
      ensures memory == old(memory)[slot := RESET] && disk == old(disk)[slot := RESET]
      ensures Safe() <==> old(last.None? || !IsOldest(nonceOf, memory, last.value.slot))
      ensures old(Synced()) ==> Synced() && (Safe() <==> old(last.None? || !AllAt(nonceOf, disk, last.value.time)))
    {
      hide IsLatest, IsOldest, IsValid;
      var status;
      status, slot := SelectOldest(nonceOf, memory);
      if last.Some? {
        InvalidatedLatest(nonceOf, disk, last.value.slot, slot);
        if IsOldest(nonceOf, memory, last.value.slot) {
          OldestIsUnique(nonceOf, memory, slot, last.value.slot);
        }
        if Synced() {
          assert memory == disk;
          LatestIsOldest(nonceOf, disk, last.value.slot);
        }
      } else {
        StillNone(nonceOf, disk, disk[slot := RESET], slot);
      }
      memory, disk := memory[slot := RESET], disk[slot := RESET];
    }

    /** Second part: describe the new save in memory. */
    method Instantiate(slot: nat, numZones: nat, saveType: SaveType, now: nat)
      requires Synced() && saving == None && slot < |disk| && disk[slot] == RESET
      requires saveType != NoSave && numZones > 0 && now > 0
      modifies this`memory, this`saving
      ensures Synced() && (old(Safe()) ==> Safe()) && saving == Some(slot)
      ensures memory == old(memory)[slot := Slot(saveType, numZones, now, nonceOf(slot, now))]
    {
      memory := memory[slot := Slot(saveType, numZones, now, nonceOf(slot, now))];
      saving := Some(slot);
    }

    /** Write to the regions of the save in progress. */
    method WriteData(content: nat)
      requires Synced() && saving.Some?
      modifies this`data
      ensures Synced() && (old(Safe()) ==> Safe()) && data == old(data)[saving.value := content]
    {
      data := data[saving.value := content];
    }

    /** Write the header of the new save, if its state has been saved. From then on it
        is the last save. It is found as such if and only if its time is later than that
        of the last save before, or the same in a lower slot. Without state the slot
        stays in memory, although it is not on disk. */
    method Commit(stateSaved: bool) returns (ok: bool)
      requires Synced() && saving.Some? && IsValid(nonceOf, memory, saving.value)
      modifies this`disk, this`saving, this`last
      ensures ok == stateSaved && saving == None
      ensures ok ==>
        && var slot := old(saving.value);
        && last == Some(Committed(slot, memory[slot].timestamp, data[slot])) && disk == old(disk)[slot := memory[slot]]
        && Synced() && (Safe() <==> IsLatest(nonceOf, disk, slot))
        && (Safe() <==> !IsBeaten(nonceOf, old(disk), slot, memory[slot].timestamp))
      ensures ok && old(Safe()) ==> (Safe() <==> old(FoundAfter(saving.value, memory[saving.value].timestamp)))
      ensures !ok ==> (old(Safe()) ==> Safe()) && last == old(last) && disk == old(disk)
    {
      var slot := saving.value;
      saving := None;
      if !stateSaved {
        return false;
      }
      CommitLatest(nonceOf, disk, slot, memory[slot]);
      if Safe() && last.Some? {
        LastBeats(nonceOf, disk, last.value.slot, slot, memory[slot].timestamp);
      }
      disk := disk[slot := memory[slot]];
      last := Some(Committed(slot, memory[slot].timestamp, data[slot]));
      return true;
    }

    /** A save in this slot at this time is loaded rather than the last save, or in its
        place. */
    ghost predicate FoundAfter(slot: nat, time: nat)
      reads this
    {
      last.None? || last.value.time < time || (last.value.time == time && slot <= last.value.slot)
    }

    /** Give up a save in progress. */
    method Cancel()
      requires Synced() && saving.Some?
      modifies this`memory, this`saving
      ensures Synced() && (old(Safe()) ==> Safe())
      ensures saving == None && memory == old(memory)[old(saving.value) := RESET]
    {
      memory := memory[saving.value := RESET];
      saving := None;
    }

    /** The system goes down, at any point, and the layout is read from disk. */
    method Crash()
      requires |memory| == |disk| == |data| >= 2
      modifies this`memory, this`saving
      ensures Synced() && (old(Safe()) ==> Safe()) && saving == None && disk == old(disk)
    {
      memory, saving := disk, None;
    }
  }

  /** All slots hold saves of the same time. */
  ghost predicate AllAt(nonceOf: (nat, nat) -> nat, slots: seq<Slot>, time: nat) {
    forall j :: 0 <= j < |slots| ==> SaveTime(nonceOf, slots, j) == time
  }

  /** Slot j is loaded rather than a save in slot k at this time. */
  ghost predicate Beats(nonceOf: (nat, nat) -> nat, slots: seq<Slot>, j: nat, k: nat, time: nat) {
    j < |slots| && (SaveTime(nonceOf, slots, j) > time || (SaveTime(nonceOf, slots, j) == time && j < k))
  }

  ghost predicate IsBeaten(nonceOf: (nat, nat) -> nat, slots: seq<Slot>, k: nat, time: nat) {
    exists j :: j != k && Beats(nonceOf, slots, j, k, time)
  }

  /** The latest save is the oldest as well if and only if all slots have its time. */
  lemma LatestIsOldest(nonceOf: (nat, nat) -> nat, slots: seq<Slot>, k: nat)
    requires IsLatest(nonceOf, slots, k)
    ensures IsOldest(nonceOf, slots, k) <==> AllAt(nonceOf, slots, slots[k].timestamp)
  {
    assert SaveTime(nonceOf, slots, k) == slots[k].timestamp;
  }

  /** The latest save stays the latest if and only if another slot is invalidated. */
  lemma InvalidatedLatest(nonceOf: (nat, nat) -> nat, slots: seq<Slot>, k: nat, slot: nat)
    requires IsLatest(nonceOf, slots, k) && slot < |slots|
    ensures k < |slots| && (IsLatest(nonceOf, slots[slot := RESET], k) <==> slot != k)
  {
    var after := slots[slot := RESET];
    forall j | 0 <= j < |after|
      ensures SaveTime(nonceOf, after, j) == if j == slot then 0 else SaveTime(nonceOf, slots, j)
    {
    }
    assert SaveTime(nonceOf, slots, k) > 0;
  }

  lemma StillNone(nonceOf: (nat, nat) -> nat, slots: seq<Slot>, after: seq<Slot>, slot: nat)
    requires slot < |slots| && after == slots[slot := RESET]
    requires forall j :: 0 <= j < |slots| ==> !IsValid(nonceOf, slots, j)
    ensures forall j :: 0 <= j < |after| ==> !IsValid(nonceOf, after, j)
  {
    forall j | 0 <= j < |after|
      ensures !IsValid(nonceOf, after, j)
    {
      assert !IsValid(nonceOf, slots, j);
    }
  }

  /** A save is the latest once its header is written if and only if no other beats it. */
  lemma CommitLatest(nonceOf: (nat, nat) -> nat, slots: seq<Slot>, k: nat, save: Slot)
    requires k < |slots| && IsValid(nonceOf, slots[k := save], k)
    ensures IsLatest(nonceOf, slots[k := save], k) <==> !IsBeaten(nonceOf, slots, k, save.timestamp)
  {
    var after := slots[k := save];
    forall j | 0 <= j < |after|
      ensures SaveTime(nonceOf, after, j) == if j == k then save.timestamp else SaveTime(nonceOf, slots, j)
    {
    }
    if IsLatest(nonceOf, after, k) {
      forall j: nat | j != k
        ensures !Beats(nonceOf, slots, j, k, save.timestamp)
      {
        if j < |slots| {
          assert SaveTime(nonceOf, after, j) == SaveTime(nonceOf, slots, j);
        }
      }
    } else if j: nat :| j < |after| && SaveTime(nonceOf, after, j) > save.timestamp {
      assert Beats(nonceOf, slots, j, k, save.timestamp);
    } else {
      var j: nat :| j < k && SaveTime(nonceOf, after, j) >= save.timestamp;
      assert Beats(nonceOf, slots, j, k, save.timestamp);
    }
  }

  /** Some slot beats a save if and only if the latest one does. */
  lemma LastBeats(nonceOf: (nat, nat) -> nat, slots: seq<Slot>, l: nat, k: nat, time: nat)
    requires IsLatest(nonceOf, slots, l) && k < |slots| && slots[k] == RESET
    ensures IsBeaten(nonceOf, slots, k, time) <==>
      slots[l].timestamp > time || (slots[l].timestamp == time && l < k)
  {
    assert SaveTime(nonceOf, slots, l) == slots[l].timestamp > 0 && SaveTime(nonceOf, slots, k) == 0;
    if slots[l].timestamp > time || (slots[l].timestamp == time && l < k) {
      assert Beats(nonceOf, slots, l, k, time);
    } else {
      forall j: nat | j != k
        ensures !Beats(nonceOf, slots, j, k, time)
      {
        if j < |slots| {
          assert SaveTime(nonceOf, slots, j) <= SaveTime(nonceOf, slots, l);
        }
      }
    }
  }

  /** A save is the one to be loaded, once its header is written, exactly if it is
      later than all others, where a tie goes to the lower slot. */
  lemma CommittedIsLatest(nonceOf: (nat, nat) -> nat, slots: seq<Slot>, k: nat)
    requires k < |slots| && IsValid(nonceOf, slots, k)
    ensures IsLatest(nonceOf, slots, k) <==>
      forall j :: 0 <= j < |slots| && j != k && IsValid(nonceOf, slots, j) ==>
        slots[j].timestamp < slots[k].timestamp || (slots[j].timestamp == slots[k].timestamp && k < j)
  {
    if IsLatest(nonceOf, slots, k) {
      forall j | 0 <= j < |slots| && j != k && IsValid(nonceOf, slots, j)
        ensures slots[j].timestamp < slots[k].timestamp || (slots[j].timestamp == slots[k].timestamp && k < j)
      {
        assert SaveTime(nonceOf, slots, j) <= SaveTime(nonceOf, slots, k);
      }
    }
  }

  /** Make a save, from choosing a slot to writing its header. It is found if and only
      if its time is later than that of the last save, or the same in a slot that is not
      higher. */
  method SaveOnce(slots: IndexSlots, now: nat, content: nat, stateSaved: bool) returns (slot: nat)
    requires slots.Valid() && slots.saving == None && now > 0
    modifies slots
    ensures slots.saving == None && |slots.disk| == |old(slots.disk)|
    ensures IsOldest(slots.nonceOf, old(slots.memory), slot)
    ensures slots.memory == old(slots.memory)[slot := SaveAt(slots.nonceOf, slot, now)]
    ensures stateSaved ==>
      && slots.disk == slots.memory && slots.last == Some(Committed(slot, now, content))
      && slots.data == old(slots.data)[slot := content]
      && (slots.Valid() <==> IsLatest(slots.nonceOf, slots.disk, slot))
      && (slots.Valid() <==> old(slots.FoundAfter(slot, now)))
    ensures !stateSaved ==>
      && slots.last == old(slots.last) && slots.disk == old(slots.disk)[slot := RESET]
      && (slots.Safe() <==> old(slots.last.None? || !AllAt(slots.nonceOf, slots.disk, slots.last.value.time)))
  {
    hide IsLatest, IsOldest;
    ghost var disk, last := slots.disk, slots.last;
    assert slots.memory == disk;
    slot := slots.Invalidate();
    ghost var safe := slots.Safe();
    if !safe {
      OldestIsUnique(slots.nonceOf, disk, slot, last.value.slot);
      TiedSave(slots.nonceOf, disk, slot, now);
    }
    slots.Instantiate(slot, 1, FullSave, now);
    slots.WriteData(content);
    var ok := slots.Commit(stateSaved);
  }

  /** If all slots have the time of the last save, the new one replaces it, and is found
      unless its time is earlier. */
  lemma TiedSave(nonceOf: (nat, nat) -> nat, slots: seq<Slot>, k: nat, time: nat)
    requires |slots| >= 2 && IsLatest(nonceOf, slots, k) && AllAt(nonceOf, slots, slots[k].timestamp)
    ensures IsBeaten(nonceOf, slots[k := RESET], k, time) <==> time < slots[k].timestamp
  {
    var after, t := slots[k := RESET], slots[k].timestamp;
    assert SaveTime(nonceOf, slots, k) == t;
    assert SaveTime(nonceOf, slots, 0) == t;
    assert k == 0;
    forall j | 0 < j < |after|
      ensures SaveTime(nonceOf, after, j) == t
    {
      assert SaveTime(nonceOf, slots, j) == t;
    }
    if time < t {
      assert Beats(nonceOf, after, 1, k, time);
    }
  }

  /** Two saves in the same millisecond: the older one is loaded. */
  method SameMillisecond(nonceOf: (nat, nat) -> nat) returns (slots: IndexSlots, loaded: Option<nat>)
    ensures |slots.data| == 2 && loaded == Some(0) && slots.data[0] == 1
    ensures slots.last == Some(Committed(1, 7, 2)) && slots.disk == slots.memory && !slots.Valid()
  {
    slots := new IndexSlots(nonceOf, 2);
    var first := FirstSave(slots);
    var second := SaveOnce(slots, 7, 2, true);
    SecondSlot(nonceOf, second);
    loaded := slots.FindLatest();
    EqualTimes(nonceOf, slots.memory);
    LatestIsUnique(nonceOf, slots.memory, loaded.value, 0);
  }

  /** The first save goes to slot 0. */
  method FirstSave(slots: IndexSlots) returns (slot: nat)
    requires slots.Valid() && slots.saving == None && slots.last == None && slots.memory == [RESET, RESET]
    modifies slots
    ensures slots.Valid() && slots.saving == None && slots.memory == [SaveAt(slots.nonceOf, 0, 7), RESET]
    ensures slots.last == Some(Committed(0, 7, 1)) && |slots.data| == 2 && slots.data[0] == 1
  {
    slot := SaveOnce(slots, 7, 1, true);
    assert IsOldest(slots.nonceOf, [RESET, RESET], 0);
    OldestIsUnique(slots.nonceOf, [RESET, RESET], slot, 0);
  }

  function SaveAt(nonceOf: (nat, nat) -> nat, slot: nat, time: nat): Slot {
    Slot(FullSave, 1, time, nonceOf(slot, time))
  }

  /** And the second to slot 1. */
  lemma SecondSlot(nonceOf: (nat, nat) -> nat, slot: nat)
    requires IsOldest(nonceOf, [SaveAt(nonceOf, 0, 7), RESET], slot)
    ensures slot == 1
  {
    var slots := [SaveAt(nonceOf, 0, 7), RESET];
    assert SaveTime(nonceOf, slots, 1) == 0 && SaveTime(nonceOf, slots, 0) == 7;
  }

  lemma ThirdSlot(nonceOf: (nat, nat) -> nat, slot: nat)
    requires IsOldest(nonceOf, [SaveAt(nonceOf, 0, 7), SaveAt(nonceOf, 1, 8)], slot)
    ensures slot == 0
  {
    var slots := [SaveAt(nonceOf, 0, 7), SaveAt(nonceOf, 1, 8)];
    FirstIsOldest(nonceOf, slots);
    OldestIsUnique(nonceOf, slots, slot, 0);
  }

  lemma EqualTimes(nonceOf: (nat, nat) -> nat, slots: seq<Slot>)
    requires slots == [SaveAt(nonceOf, 0, 7), SaveAt(nonceOf, 1, 7)]
    ensures IsLatest(nonceOf, slots, 0)
  {
  }

  lemma BothAtEight(nonceOf: (nat, nat) -> nat, slots: seq<Slot>)
    requires slots == [SaveAt(nonceOf, 0, 8), SaveAt(nonceOf, 1, 8)]
    ensures AllAt(nonceOf, slots, 8) && IsOldest(nonceOf, slots, 0)
  {
  }

  lemma OnlySecond(nonceOf: (nat, nat) -> nat, slots: seq<Slot>)
    requires slots == [RESET, SaveAt(nonceOf, 1, 8)]
    ensures IsLatest(nonceOf, slots, 1)
  {
  }

  lemma FirstIsOldest(nonceOf: (nat, nat) -> nat, slots: seq<Slot>)
    requires slots == [SaveAt(nonceOf, 0, 7), SaveAt(nonceOf, 1, 8)]
    ensures IsOldest(nonceOf, slots, 0)
  {
  }

  /** Saves at 7, 8 and 8: the third goes to slot 0 and is found. But both slots now have
      its time, so that the fourth save first invalidates it. A crash then loads the
      second. */
  method TiedSaves(nonceOf: (nat, nat) -> nat) returns (slots: IndexSlots, found: Option<nat>, loaded: Option<nat>)
    ensures found == Some(0) && slots.last == Some(Committed(0, 8, 3)) && !slots.Safe()
    ensures loaded == Some(1) && |slots.data| == 2 && slots.data[1] == 2
  {
    slots := new IndexSlots(nonceOf, 2);
    var first := FirstSave(slots);
    var second := SaveOnce(slots, 8, 2, true);
    SecondSlot(nonceOf, second);
    ghost var before := slots.memory;
    assert before == [SaveAt(nonceOf, 0, 7), SaveAt(nonceOf, 1, 8)];
    var third := SaveOnce(slots, 8, 3, true);
    ThirdSlot(nonceOf, third);
    assert slots.memory == [SaveAt(nonceOf, 0, 8), SaveAt(nonceOf, 1, 8)];
    found := slots.FindLatest();
    ghost var disk := slots.disk;
    BothAtEight(nonceOf, disk);
    var fourth := slots.Invalidate();
    OldestIsUnique(nonceOf, disk, fourth, 0);
    slots.Crash();
    loaded := slots.FindLatest();
    assert slots.memory == [RESET, SaveAt(nonceOf, 1, 8)];
    OnlySecond(nonceOf, slots.memory);
    LatestIsUnique(nonceOf, slots.memory, loaded.value, 1);
  }

  /** A save that failed to commit and was not cancelled: memory takes it for the latest
      save, so the slot chosen next is that of the last save on disk, and after a crash
      there is nothing to load. */
  method AbandonedSave(nonceOf: (nat, nat) -> nat) returns (slots: IndexSlots, loaded: Option<nat>)
    ensures slots.last == Some(Committed(0, 7, 1)) && !slots.Safe() && loaded == None
  {
    slots := new IndexSlots(nonceOf, 2);
    var first := FirstSave(slots);
    assert SaveTime(nonceOf, slots.disk, 1) == 0;
    var second := SaveOnce(slots, 8, 2, false);
    SecondSlot(nonceOf, second);
    FirstIsOldest(nonceOf, slots.memory);
    ghost var memory := slots.memory;
    assert slots.disk[1] == RESET;
    var third := slots.Invalidate();
    OldestIsUnique(nonceOf, memory, third, 0);
    loaded := SelectLatest(nonceOf, slots.disk);
  }
}
