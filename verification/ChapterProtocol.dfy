/** How the zones of an index close chapters and hand them to the chapter writer
    (uds/indexZone.c, uds/chapterWriter.c), as interleaved steps of the zone threads
    and the writer thread. */
module ChapterProtocol {
  import opened Numbers
  import opened ChapterNumbers

  datatype Record = Record(name: nat, data: nat)

  /** Where a zone thread is in closing its open chapter. */
  datatype Phase =
    | Open                                  // not closing
    | Swapped                               // the chapter buffers are swapped
    | Advanced(failed: bool)                // the new open chapter is empty and current; if
                                            // failed, the old one will never be submitted
    | Closing(finished: nat, next: nat)     // submitted as the finished-th zone; zone next is told next

  /** A zone has two chapter buffers, and one of them is the open chapter. */
  datatype Zone = Zone(
    newest: nat, oldest: nat, phase: Phase,
    byRequest: bool,                        // closing its chapter for a client request
    open: nat, buffers: seq<seq<Record>>,
    queue: seq<nat>,                        // announcements of closed chapters
    puts: map<nat, seq<Record>>,            // history: the records put in each chapter
    submitted: seq<nat>)                    // history: the chapters submitted

  datatype Writer = Writer(
    zonesToWrite: nat, chapters: seq<nat>,  // the buffer each zone submitted
    writing: bool, collected: seq<seq<Record>>,
    ok: bool,                               // the result of the most recent write
    stop: bool, exited: bool)

  /** A chapter on the volume, with the records of each zone. */
  datatype Chapter = Chapter(virtual: nat, records: seq<seq<Record>>)

  datatype State = State(
    slots: nat,                             // physical chapters on the volume
    first: nat, start: nat,                 // the oldest and newest chapters at the beginning
    newest: nat, oldest: nat,
    zones: seq<Zone>, writer: Writer,
    accepting: bool, joined: nat,           // whether clients may send requests; zone threads joined
    volume: map<nat, Chapter>,
    forgotten: seq<nat>)                    // history: the chapters dropped from the cache

  datatype Step =
    | Put(zone: nat, record: Record)
    | Close(zone: nat)                      // the zone closes its open chapter, by itself
    | Handle(zone: nat)                     // or when it is told that another zone has
    | Advance(zone: nat)
    | Submit(zone: nat)
    | Fail(zone: nat)                       // checkpointing fails before the zone submits
    | Announce(zone: nat)
    | Retire(zone: nat)
    | StartWrite
    | Collect
    | FinishWrite(ok: bool)
    | Quiesce                               // no request is in progress, and none is accepted
    | Join                                  // the thread of the next zone has ended
    | Stop                                  // the writer is told to stop
    | Exit

  function PutsIn(z: Zone, chapter: nat): seq<Record> {
    if chapter in z.puts then z.puts[chapter] else []
  }

  /** The records put in a chapter, zone by zone. */
  ghost function Contents(zones: seq<Zone>, chapter: nat): (r: seq<seq<Record>>)
    ensures |r| == |zones|
  {
    seq(|zones|, i requires 0 <= i < |zones| => PutsIn(zones[i], chapter))
  }

  predicate HasSubmitted(z: Zone, newest: nat) {
    z.newest == newest + 1 && !z.phase.Advanced?
  }

  // ----- The steps -----

  /** The oldest chapter, after the newest has become n: it makes way when the new
      chapter will overwrite it. */
  function NextOldest(slots: nat, n: nat, oldest: nat): nat
    requires slots > 0
  {
    if n % slots == oldest % slots then oldest + 1 else oldest
  }

  /** A zone may swap its buffers when the write of the previous chapter is over and
      did not fail. */
  predicate MaySwap(s: State, z: Zone) {
    z.phase.Open? && z.newest <= s.newest && s.writer.ok
  }

  /** A zone thread that takes the next request or message from its queue. After a
      failure it goes on with the new open chapter. */
  predicate IsIdle(z: Zone) {
    z.phase.Open? || z.phase == Advanced(true)
  }

  predicate Enabled(s: State, step: Step)
    requires Shape(s)
  {
    match step
    case Put(z, _) => s.joined <= z < |s.zones| && s.accepting && IsIdle(s.zones[z])
    case Close(z) => s.joined <= z < |s.zones| && s.accepting && MaySwap(s, s.zones[z])
    case Handle(z) => s.joined <= z < |s.zones| && IsIdle(s.zones[z]) && s.zones[z].queue != [] &&
      (s.zones[z].queue[0] == s.zones[z].newest ==> MaySwap(s, s.zones[z]))
    case Advance(z) => s.joined <= z < |s.zones| && s.zones[z].phase.Swapped?
    case Submit(z) => s.joined <= z < |s.zones| && s.zones[z].phase == Advanced(false)
    case Fail(z) => s.joined <= z < |s.zones| && s.zones[z].phase == Advanced(false)
    case Announce(z) => s.joined <= z < |s.zones| && s.zones[z].phase.Closing? && s.zones[z].phase.next < |s.zones|
    case Retire(z) => s.joined <= z < |s.zones| && s.zones[z].phase.Closing? && s.zones[z].phase.next >= |s.zones|
    case StartWrite => !s.writer.writing && !s.writer.exited && s.writer.zonesToWrite >= |s.zones|
    case Collect => s.writer.writing && |s.writer.collected| < |s.zones|
    case FinishWrite(_) => s.writer.writing && |s.writer.collected| == |s.zones|
    case Quiesce => s.accepting && forall i :: 0 <= i < |s.zones| ==> !s.zones[i].byRequest
    case Join => !s.accepting && s.joined < |s.zones| && IsIdle(s.zones[s.joined]) && s.zones[s.joined].queue == []
    case Stop => s.joined == |s.zones|
    case Exit => !s.writer.writing && s.writer.stop && s.writer.zonesToWrite == 0
  }

  function Swap(z: Zone, byRequest: bool): Zone
    requires z.open < 2
  {
    z.(phase := Swapped, open := 1 - z.open, byRequest := byRequest)
  }

  function PutRecord(z: Zone, r: Record): Zone
    requires z.open < |z.buffers|
  {
    z.(buffers := z.buffers[z.open := z.buffers[z.open] + [r]], puts := z.puts[z.newest := PutsIn(z, z.newest) + [r]])
  }

  function Apply(s: State, step: Step): State
    requires Shape(s) && Enabled(s, step)
  {
    match step
    case Put(i, r) => s.(zones := s.zones[i := PutRecord(s.zones[i], r)])
    case Close(i) => s.(zones := s.zones[i := Swap(s.zones[i], true)])
    case Handle(i) =>
      var z := s.zones[i];
      var rest := z.(queue := z.queue[1..]);
      s.(zones := s.zones[i := if z.queue[0] == z.newest then Swap(rest, false) else rest])
    case Advance(i) =>
      var z := s.zones[i];
      var advanced := z.(phase := Advanced(false), newest := z.newest + 1, buffers := z.buffers[z.open := []]);
      s.(zones := s.zones[i := advanced])
    case Submit(i) =>
      var z := s.zones[i];
      var finished := s.writer.zonesToWrite + 1;
      var next := if finished == 1 && |s.zones| > 1 then 0 else |s.zones|;
      s.(zones := s.zones[i := z.(phase := Closing(finished, next), submitted := z.submitted + [z.newest - 1])],
         writer := s.writer.(zonesToWrite := finished, chapters := s.writer.chapters[i := 1 - z.open]))
    case Fail(i) => s.(zones := s.zones[i := s.zones[i].(phase := Advanced(true), byRequest := false)])
    case Announce(i) =>
      var z := s.zones[i];
      var to := z.phase.next;
      var told := s.zones[i := z.(phase := Closing(z.phase.finished, to + 1))];
      if to == i then s.(zones := told)
      else s.(zones := told[to := told[to].(queue := told[to].queue + [z.newest - 1])])
    case Retire(i) =>
      var z := s.zones[i];
      var oldest := NextOldest(s.slots, z.newest, z.oldest);
      s.(zones := s.zones[i := z.(phase := Open, oldest := oldest, byRequest := false)],
         forgotten := if oldest != z.oldest && z.phase.finished >= |s.zones| then s.forgotten + [z.oldest]
                      else s.forgotten)
    case StartWrite =>
      s.(writer := s.writer.(writing := true, collected := []), volume := s.volume - {s.newest % s.slots})
    case Collect =>
      var i := |s.writer.collected|;
      s.(writer := s.writer.(collected := s.writer.collected + [s.zones[i].buffers[s.writer.chapters[i]]]))
    case FinishWrite(ok) =>
      s.(writer := s.writer.(writing := false, zonesToWrite := 0, ok := ok),
         newest := s.newest + 1,
         oldest := NextOldest(s.slots, s.newest + 1, s.oldest),
         volume := if ok then s.volume[s.newest % s.slots := Chapter(s.newest, s.writer.collected)] else s.volume)
    case Quiesce => s.(accepting := false)
    case Join => s.(joined := s.joined + 1)
    case Stop => s.(writer := s.writer.(stop := true))
    case Exit => s.(writer := s.writer.(exited := true))
  }

  predicate Shape(s: State) {
    && s.slots > 0 && |s.zones| > 0 && |s.writer.chapters| == |s.zones|
    && (forall i :: 0 <= i < |s.zones| ==> ZoneShape(s.zones[i]))
    && (forall i :: 0 <= i < |s.zones| ==> s.writer.chapters[i] < 2)
  }

  predicate ZoneShape(z: Zone) {
    z.open < 2 && |z.buffers| == 2 && (z.phase.Advanced? || z.phase.Closing? ==> z.newest > 0)
  }

  // ----- The invariant -----

  /** The oldest chapter when the newest is n. */
  function OldestFor(s: State, n: nat): nat {
    if n >= s.first + s.slots then n - s.slots + 1 else s.first
  }

  /** The chapter up to which a zone has adjusted its oldest chapter. */
  function Settled(z: Zone): nat
    requires ZoneShape(z)
  {
    if z.phase.Advanced? || z.phase.Closing? then z.newest - 1 else z.newest
  }

  ghost predicate ZoneOk(s: State, i: nat)
    requires Shape(s) && i < |s.zones|
  {
    var z := s.zones[i];
    // A zone is at the newest chapter of the index or one ahead.
    && (z.newest == s.newest || (z.newest == s.newest + 1 && s.writer.ok))
    && (z.phase.Swapped? ==> z.newest == s.newest && s.writer.ok)
    && (z.phase.Advanced? ==> z.newest == s.newest + 1)
    // The open buffer holds what was put in the open chapter, and the other one
    // what was put in the chapter being written.
    && (forall c :: c in z.puts ==> c <= z.newest)
    && z.buffers[if z.phase.Swapped? then 1 - z.open else z.open] == PutsIn(z, z.newest)
    && (z.newest == s.newest + 1 ==> z.buffers[1 - z.open] == PutsIn(z, s.newest))
    && (HasSubmitted(z, s.newest) ==> s.writer.chapters[i] == 1 - z.open)
    // It has submitted every chapter once, in order.
    && (forall k :: 0 <= k < |z.submitted| ==> z.submitted[k] == s.start + k)
    && s.start + |z.submitted| == (if z.phase.Advanced? then z.newest - 1 else z.newest)
    && s.start <= Settled(z) && z.oldest == OldestFor(s, Settled(z))
  }

  ghost function Submitters(zones: seq<Zone>, newest: nat): (n: nat)
    ensures n <= |zones|
  {
    if zones == [] then 0
    else Submitters(zones[..|zones| - 1], newest) + (if HasSubmitted(zones[|zones| - 1], newest) then 1 else 0)
  }

  ghost predicate WriterOk(s: State)
    requires Shape(s)
  {
    && s.writer.zonesToWrite == Submitters(s.zones, s.newest)
    && (s.writer.writing ==>
          && s.writer.ok && s.writer.zonesToWrite == |s.zones| && |s.writer.collected| <= |s.zones|
          && forall i :: 0 <= i < |s.writer.collected| ==> s.writer.collected[i] == PutsIn(s.zones[i], s.newest))
  }

  /** The volume holds every chapter of the index that has been written, with the
      records that were put in it. */
  ghost predicate VolumeOk(s: State)
    requires Shape(s)
  {
    forall c :: s.oldest <= c < s.newest && (s.writer.ok || c + 1 < s.newest) ==>
      OnVolume(s.volume, c % s.slots, Chapter(c, Contents(s.zones, c)))
  }

  predicate OnVolume(volume: map<nat, Chapter>, slot: nat, chapter: Chapter) {
    slot in volume && volume[slot] == chapter
  }

  ghost predicate ChaptersOk(s: State) {
    && s.slots > 0 && s.first <= s.start <= s.newest && s.start < s.first + s.slots
    && s.oldest == OldestFor(s, s.newest)
  }

  /** The last zone to close a chapter. */
  predicate IsLast(s: State, z: Zone) {
    z.phase.Closing? && z.phase.finished >= |s.zones|
  }

  /** The chapter that all zones have opened. */
  function Reached(s: State): nat {
    if s.writer.zonesToWrite >= |s.zones| then s.newest + 1 else s.newest
  }

  /** The chapters forgotten are the oldest ones, in order, each once; one more is
      due if the last zone to close a chapter is not done. */
  ghost predicate ForgetOk(s: State)
    requires Shape(s) && ChaptersOk(s)
  {
    && (forall k :: 0 <= k < |s.forgotten| ==> s.forgotten[k] == s.first + k)
    && (forall i :: 0 <= i < |s.zones| && IsLast(s, s.zones[i]) ==>
          && s.zones[i].newest == Reached(s) > s.start
          && s.first + |s.forgotten| == OldestFor(s, Reached(s) - 1))
    && (forall i, j :: 0 <= i < j < |s.zones| ==> !(IsLast(s, s.zones[i]) && IsLast(s, s.zones[j])))
    && ((forall i :: 0 <= i < |s.zones| ==> !IsLast(s, s.zones[i])) ==>
          s.first + |s.forgotten| == OldestFor(s, Reached(s)))
  }

  /** A zone that has closed the chapter and has yet to tell zone i so. */
  predicate Announces(z: Zone, newest: nat, i: nat) {
    z.phase.Closing? && z.newest == newest + 1 && z.phase.next <= i
  }

  /** A zone that has not begun to close a chapter that another zone has closed has
      an announcement waiting, or one is due. */
  ghost predicate NotLeftBehind(s: State, i: nat)
    requires i < |s.zones|
  {
    var z := s.zones[i];
    z.newest == s.newest && !z.phase.Swapped? && s.writer.zonesToWrite > 0 ==>
      s.newest in z.queue || exists a :: 0 <= a < |s.zones| && Announces(s.zones[a], s.newest, i)
  }

  ghost predicate MessagesOk(s: State, i: nat)
    requires i < |s.zones|
  {
    forall c :: c in s.zones[i].queue ==> c < s.newest || (c == s.newest && s.writer.zonesToWrite > 0)
  }

  ghost predicate AnnouncementsOk(s: State) {
    forall i :: 0 <= i < |s.zones| ==> NotLeftBehind(s, i) && MessagesOk(s, i)
  }

  ghost predicate BaseInv(s: State) {
    && Shape(s) && ChaptersOk(s) && (forall i :: 0 <= i < |s.zones| ==> ZoneOk(s, i))
    && WriterOk(s) && VolumeOk(s) && ForgetOk(s)
  }

  ghost predicate CoreInv(s: State) {
    BaseInv(s) && AnnouncementsOk(s)
  }

  /** A zone that closes its chapter because it was told to is not the first, so it
      has nobody to tell. */
  predicate Follows(s: State, z: Zone) {
    && (z.phase.Closing? && z.phase.next < |s.zones| ==> z.byRequest)
    && (z.phase.Swapped? || z.phase == Advanced(false) ==> z.byRequest || s.writer.zonesToWrite > 0)
  }

  /** Zone threads are joined in order, after the last request: they have nothing
      left to do, and nobody gives them anything. The writer is told to stop last. */
  ghost predicate DrainOk(s: State) {
    && s.joined <= |s.zones| && (s.joined > 0 ==> !s.accepting)
    && (forall i :: 0 <= i < s.joined ==> IsIdle(s.zones[i]) && s.zones[i].queue == [])
    && (!s.accepting ==> forall i :: 0 <= i < |s.zones| ==> !s.zones[i].byRequest)
    && (forall i :: 0 <= i < |s.zones| ==> Follows(s, s.zones[i]))
    && (s.writer.stop ==> s.joined == |s.zones|)
    && (s.writer.exited ==> s.writer.stop && s.writer.zonesToWrite == 0)
  }

  ghost predicate Inv(s: State) {
    CoreInv(s) && DrainOk(s)
  }

  // ----- Counting -----

  lemma {:induction false} SubmittersUpdate(zones: seq<Zone>, newest: nat, i: nat, z: Zone)
    requires i < |zones|
    ensures Submitters(zones[i := z], newest) ==
      Submitters(zones, newest) - (if HasSubmitted(zones[i], newest) then 1 else 0) +
        (if HasSubmitted(z, newest) then 1 else 0)
  {
    var n := |zones| - 1;
    if i == n {
      assert zones[i := z][..n] == zones[..n];
    } else {
      SubmittersUpdate(zones[..n], newest, i, z);
      assert zones[i := z][..n] == zones[..n][i := z];
    }
  }

  lemma {:induction false} AllSubmitters(zones: seq<Zone>, newest: nat)
    ensures Submitters(zones, newest) == |zones| <==> forall i :: 0 <= i < |zones| ==> HasSubmitted(zones[i], newest)
  {
    if zones != [] {
      var n := |zones| - 1;
      AllSubmitters(zones[..n], newest);
      assert forall i :: 0 <= i < n ==> zones[..n][i] == zones[i];
    }
  }

  lemma {:induction false} NoSubmitters(zones: seq<Zone>, newest: nat)
    ensures Submitters(zones, newest) == 0 <==> forall i :: 0 <= i < |zones| ==> !HasSubmitted(zones[i], newest)
  {
    if zones != [] {
      var n := |zones| - 1;
      NoSubmitters(zones[..n], newest);
      assert forall i :: 0 <= i < n ==> zones[..n][i] == zones[i];
    }
  }

  // ----- Chapter numbers -----

  lemma SameSlot(slots: nat, a: nat, b: nat)
    requires slots > 0 && b <= a <= b + slots
    ensures a % slots == b % slots <==> a == b || a == b + slots
  {
    var q, r, d := b / slots, b % slots, a - b;
    assert b == q * slots + r;
    MulNext(q, slots);
    if d == slots {
      ModAdd(b, 1, slots);
    } else if r + d < slots {
      ModUnique(a, q, r + d, slots);
    } else {
      ModUnique(a, q + 1, r + d - slots, slots);
    }
  }

  lemma NextOldestIs(s: State, n: nat)
    requires ChaptersOk(s) && n >= s.start
    ensures NextOldest(s.slots, n + 1, OldestFor(s, n)) == OldestFor(s, n + 1)
  {
    SameSlot(s.slots, n + 1, OldestFor(s, n));
  }

  // ----- Every step keeps the invariant -----

  lemma ContentsSame(zones: seq<Zone>, zones': seq<Zone>, c: nat)
    requires |zones| == |zones'| && forall i :: 0 <= i < |zones| ==> PutsIn(zones'[i], c) == PutsIn(zones[i], c)
    ensures Contents(zones', c) == Contents(zones, c)
  {
  }

  /** The volume is as good as before if no zone changes an older chapter. */
  lemma VolumeKept(s: State, s': State)
    requires Shape(s) && VolumeOk(s) && Shape(s') && |s'.zones| == |s.zones|
    requires s'.slots == s.slots && s'.oldest == s.oldest && s'.newest == s.newest && s'.volume == s.volume &&
      s'.writer.ok == s.writer.ok
    requires forall i, c: nat :: 0 <= i < |s.zones| && c < s.newest ==> PutsIn(s'.zones[i], c) == PutsIn(s.zones[i], c)
    ensures VolumeOk(s')
  {
    forall c | s'.oldest <= c < s'.newest && (s'.writer.ok || c + 1 < s'.newest)
      ensures OnVolume(s'.volume, c % s'.slots, Chapter(c, Contents(s'.zones, c)))
    {
      ContentsSame(s.zones, s'.zones, c);
      assert OnVolume(s.volume, c % s.slots, Chapter(c, Contents(s.zones, c)));
    }
  }

  /** A step that changes one zone, but not what it has submitted or put before its
      newest chapter. */
  ghost predicate OneZone(s: State, s': State, i: nat) {
    && i < |s.zones| == |s'.zones|
    && s' == s.(zones := s.zones[i := s'.zones[i]], forgotten := s'.forgotten)
    && HasSubmitted(s'.zones[i], s.newest) == HasSubmitted(s.zones[i], s.newest)
    && (forall c: nat :: c < s.zones[i].newest ==> PutsIn(s'.zones[i], c) == PutsIn(s.zones[i], c))
  }

  lemma OneZoneKeeps(s: State, s': State, i: nat)
    requires BaseInv(s) && OneZone(s, s', i) && Shape(s') && ZoneOk(s', i) && ForgetOk(s')
    ensures BaseInv(s')
  {
    hide VolumeOk, ForgetOk, PutsIn, Submitters;
    SubmittersUpdate(s.zones, s.newest, i, s'.zones[i]);
    AllSubmitters(s.zones, s.newest);
    assert ZoneOk(s, i);
    VolumeKept(s, s');
    forall j | 0 <= j < |s.zones|
      ensures ZoneOk(s', j)
    {
      assert ZoneOk(s, j);
    }
  }

  /** A zone that does not begin or end being the last, and forgets nothing. */
  lemma ForgetKept(s: State, s': State, i: nat)
    requires Shape(s) && ChaptersOk(s) && ForgetOk(s) && i < |s.zones| == |s'.zones|
    requires s' == s.(zones := s.zones[i := s'.zones[i]]) && Shape(s') && ChaptersOk(s')
    requires IsLast(s, s'.zones[i]) == IsLast(s, s.zones[i]) &&
      (IsLast(s, s.zones[i]) ==> s'.zones[i].newest == s.zones[i].newest)
    ensures ForgetOk(s')
  {
    forall j | 0 <= j < |s.zones|
      ensures IsLast(s', s'.zones[j]) == IsLast(s, s.zones[j])
    {
    }
  }

  /** A zone that drops no announcement it needs and still owes those it owed. */
  ghost predicate KeepsUp(s: State, z: Zone, z': Zone) {
    && (forall c :: c in z'.queue ==> c in z.queue)
    && (z.phase.Closing? && z.newest == s.newest + 1 && z.phase.next < |s.zones| ==> z' == z)
    && (z'.newest == s.newest && !z'.phase.Swapped? ==>
          && z.newest == s.newest && !z.phase.Swapped?
          && (s.newest in z.queue ==> s.newest in z'.queue))
  }

  lemma AnnouncementsKept(s: State, s': State, i: nat)
    requires AnnouncementsOk(s) && i < |s.zones| == |s'.zones| && s'.zones == s.zones[i := s'.zones[i]]
    requires s'.newest == s.newest && s'.writer.zonesToWrite == s.writer.zonesToWrite
    requires KeepsUp(s, s.zones[i], s'.zones[i])
    ensures AnnouncementsOk(s')
  {
    forall k | 0 <= k < |s.zones|
      ensures NotLeftBehind(s', k) && MessagesOk(s', k)
    {
      assert NotLeftBehind(s, k) && MessagesOk(s, k);
      if a :| 0 <= a < |s.zones| && Announces(s.zones[a], s.newest, k) {
        assert Announces(s'.zones[a], s.newest, k);
      }
    }
  }

  lemma PutKeeps(s: State, i: nat, r: Record)
    requires CoreInv(s) && Enabled(s, Put(i, r))
    ensures CoreInv(Apply(s, Put(i, r)))
  {
    hide VolumeOk, ForgetOk, AnnouncementsOk, WriterOk;
    var s' := Apply(s, Put(i, r));
    assert ZoneOk(s, i) && ZoneShape(s.zones[i]);
    ForgetKept(s, s', i);
    AnnouncementsKept(s, s', i);
    OneZoneKeeps(s, s', i);
  }

  lemma CloseKeeps(s: State, i: nat)
    requires CoreInv(s) && Enabled(s, Close(i))
    ensures CoreInv(Apply(s, Close(i)))
  {
    hide VolumeOk, ForgetOk, AnnouncementsOk, WriterOk;
    var s' := Apply(s, Close(i));
    assert ZoneOk(s, i) && ZoneShape(s.zones[i]);
    ForgetKept(s, s', i);
    AnnouncementsKept(s, s', i);
    OneZoneKeeps(s, s', i);
  }

  lemma HandleKeeps(s: State, i: nat)
    requires CoreInv(s) && Enabled(s, Handle(i))
    ensures CoreInv(Apply(s, Handle(i)))
  {
    hide VolumeOk, ForgetOk, AnnouncementsOk, WriterOk, ZoneOk;
    var s' := Apply(s, Handle(i));
    assert ZoneOk(s, i) && ZoneShape(s.zones[i]);
    HandleZone(s, i);
    HandleOneZone(s, i);
    ForgetKept(s, s', i);
    AnnouncementsKept(s, s', i);
    OneZoneKeeps(s, s', i);
  }

  lemma HandleZone(s: State, i: nat)
    requires Shape(s) && Enabled(s, Handle(i)) && ZoneOk(s, i)
    ensures var s' := Apply(s, Handle(i)); Shape(s') && ZoneOk(s', i)
  {
  }

  lemma HandleOneZone(s: State, i: nat)
    requires Shape(s) && Enabled(s, Handle(i)) && ZoneOk(s, i)
    ensures var s' := Apply(s, Handle(i)); OneZone(s, s', i) && KeepsUp(s, s.zones[i], s'.zones[i])
  {
    var queue := s.zones[i].queue;
    assert queue == [queue[0]] + queue[1..];
  }

  lemma AdvanceKeeps(s: State, i: nat)
    requires CoreInv(s) && Enabled(s, Advance(i))
    ensures CoreInv(Apply(s, Advance(i)))
  {
    hide VolumeOk, ForgetOk, AnnouncementsOk, WriterOk;
    var s' := Apply(s, Advance(i));
    assert ZoneOk(s, i) && ZoneShape(s.zones[i]);
    ForgetKept(s, s', i);
    AnnouncementsKept(s, s', i);
    OneZoneKeeps(s, s', i);
  }

  lemma FailKeeps(s: State, i: nat)
    requires CoreInv(s) && Enabled(s, Fail(i))
    ensures CoreInv(Apply(s, Fail(i)))
  {
    hide VolumeOk, ForgetOk, AnnouncementsOk, WriterOk;
    var s' := Apply(s, Fail(i));
    assert ZoneOk(s, i) && ZoneShape(s.zones[i]);
    ForgetKept(s, s', i);
    AnnouncementsKept(s, s', i);
    OneZoneKeeps(s, s', i);
  }

  /** A zone that retires after another one was the last. */
  lemma OtherRetires(s: State, s': State, i: nat)
    requires Shape(s) && ChaptersOk(s) && ForgetOk(s) && i < |s.zones| == |s'.zones| && !IsLast(s, s.zones[i])
    requires s' == s.(zones := s.zones[i := s'.zones[i]]) && Shape(s') && ChaptersOk(s') && !IsLast(s, s'.zones[i])
    ensures ForgetOk(s')
  {
    ForgetKept(s, s', i);
  }

  /** The last zone to close a chapter forgets the oldest chapter, if that has to
      make way. */
  lemma LastRetires(s: State, s': State, i: nat)
    requires Shape(s) && ChaptersOk(s) && ForgetOk(s) && i < |s.zones| == |s'.zones| && IsLast(s, s.zones[i])
    requires s' == s.(zones := s.zones[i := s'.zones[i]], forgotten := s'.forgotten) && Shape(s') && ChaptersOk(s') &&
      s'.zones[i].phase.Open?
    requires var oldest, next := OldestFor(s, Reached(s) - 1), OldestFor(s, Reached(s));
      if next == oldest then s'.forgotten == s.forgotten
      else next == oldest + 1 && s'.forgotten == s.forgotten + [oldest]
    ensures ForgetOk(s')
  {
    hide OldestFor, NextOldest, ZoneShape;
    forall j | 0 <= j < |s'.zones|
      ensures !IsLast(s', s'.zones[j])
    {
      assert j != i ==> s'.zones[j] == s.zones[j];
    }
    assert SameOldest(s, s', Reached(s)) by { OldestSame(s, s', Reached(s)); }
  }

  ghost predicate SameOldest(s: State, s': State, n: nat) {
    OldestFor(s', n) == OldestFor(s, n)
  }

  lemma OldestSame(s: State, s': State, n: nat)
    requires s'.first == s.first && s'.slots == s.slots
    ensures SameOldest(s, s', n)
  {
  }

  lemma RetireForgets(s: State, i: nat)
    requires CoreInv(s) && Enabled(s, Retire(i))
    ensures var s' := Apply(s, Retire(i)); Shape(s') && ForgetOk(s')
  {
    hide VolumeOk, AnnouncementsOk, WriterOk, OldestFor, ForgetOk;
    var s', z := Apply(s, Retire(i)), s.zones[i];
    assert ZoneOk(s, i) && ZoneShape(z);
    NextOldestIs(s, z.newest - 1);
    OldestSame(s, s', s.newest);
    if IsLast(s, z) {
      LastIsAt(s, i);
      LastRetires(s, s', i);
    } else {
      OtherRetires(s, s', i);
    }
  }

  lemma LastIsAt(s: State, i: nat)
    requires Shape(s) && ChaptersOk(s) && ForgetOk(s) && i < |s.zones| && IsLast(s, s.zones[i])
    ensures s.zones[i].newest == Reached(s) > s.start
  {
  }

  lemma RetireKeeps(s: State, i: nat)
    requires CoreInv(s) && Enabled(s, Retire(i))
    ensures CoreInv(Apply(s, Retire(i)))
  {
    hide VolumeOk, ForgetOk, AnnouncementsOk, WriterOk;
    var s' := Apply(s, Retire(i));
    assert ZoneOk(s, i) && ZoneShape(s.zones[i]);
    RetireForgets(s, i);
    NextOldestIs(s, s.zones[i].newest - 1);
    AnnouncementsKept(s, s', i);
    OneZoneKeeps(s, s', i);
  }

  /** Submitting a chapter: what that does to the count of submitters. */
  lemma SubmitCounts(s: State, i: nat)
    requires CoreInv(s) && Enabled(s, Submit(i))
    ensures var s' := Apply(s, Submit(i));
      && Shape(s') && WriterOk(s') && !s.writer.writing
      && s'.writer.zonesToWrite == s.writer.zonesToWrite + 1 == Submitters(s'.zones, s.newest)
  {
    hide VolumeOk, ForgetOk, AnnouncementsOk, Submitters;
    var s' := Apply(s, Submit(i));
    assert ZoneOk(s, i) && ZoneShape(s.zones[i]);
    SubmittersUpdate(s.zones, s.newest, i, s'.zones[i]);
    AllSubmitters(s.zones, s.newest);
  }

  lemma SubmitZone(s: State, i: nat)
    requires CoreInv(s) && Enabled(s, Submit(i))
    ensures var s' := Apply(s, Submit(i)); Shape(s') && ZoneOk(s', i)
  {
    hide VolumeOk, ForgetOk, AnnouncementsOk, WriterOk, Submitters;
    assert ZoneOk(s, i) && ZoneShape(s.zones[i]);
  }

  lemma SubmitForgets(s: State, i: nat)
    requires CoreInv(s) && Enabled(s, Submit(i))
    ensures var s' := Apply(s, Submit(i)); Shape(s') && ChaptersOk(s') && ForgetOk(s')
  {
    hide VolumeOk, AnnouncementsOk, WriterOk, Submitters, ZoneOk;
    var s' := Apply(s, Submit(i));
    SubmitCounts(s, i);
    ZoneAhead(s, i);
    AllSubmitters(s'.zones, s.newest);
    forall j | 0 <= j < |s.zones| && j != i && IsLast(s, s.zones[j])
      ensures s'.writer.zonesToWrite < |s.zones|
    {
      assert s.zones[j].newest == s.newest && s'.zones[j] == s.zones[j];
    }
    if s'.writer.zonesToWrite == |s.zones| {
      assert forall j :: 0 <= j < |s.zones| ==> !IsLast(s, s.zones[j]);
      assert IsLast(s', s'.zones[i]) && Reached(s') == s.newest + 1 && Reached(s) == s.newest;
      assert forall j :: 0 <= j < |s.zones| && j != i ==> s'.zones[j] == s.zones[j];
    } else {
      assert !IsLast(s', s'.zones[i]) && Reached(s') == Reached(s);
      assert forall j :: 0 <= j < |s.zones| ==> IsLast(s', s'.zones[j]) == IsLast(s, s.zones[j]);
    }
  }

  lemma ZoneAhead(s: State, i: nat)
    requires CoreInv(s) && Enabled(s, Submit(i))
    ensures s.zones[i].newest == s.newest + 1 && Apply(s, Submit(i)).zones[i].newest == s.newest + 1
  {
    assert ZoneOk(s, i);
  }

  lemma SubmitAnnounces(s: State, i: nat)
    requires CoreInv(s) && Enabled(s, Submit(i))
    ensures AnnouncementsOk(Apply(s, Submit(i)))
  {
    hide VolumeOk, ForgetOk, WriterOk, Submitters;
    var s' := Apply(s, Submit(i));
    SubmitCounts(s, i);
    assert ZoneOk(s, i);
    forall k | 0 <= k < |s.zones|
      ensures NotLeftBehind(s', k) && MessagesOk(s', k)
    {
      assert NotLeftBehind(s, k) && MessagesOk(s, k);
      if k != i {
        if s.writer.zonesToWrite == 0 {
          assert Announces(s'.zones[i], s.newest, k);
        } else if a :| 0 <= a < |s.zones| && Announces(s.zones[a], s.newest, k) {
          assert Announces(s'.zones[a], s.newest, k);
        }
      }
    }
  }

  lemma SubmitKeeps(s: State, i: nat)
    requires CoreInv(s) && Enabled(s, Submit(i))
    ensures CoreInv(Apply(s, Submit(i)))
  {
    hide VolumeOk, ForgetOk, AnnouncementsOk, WriterOk, Submitters;
    var s' := Apply(s, Submit(i));
    SubmitZone(s, i);
    SubmitCounts(s, i);
    SubmitForgets(s, i);
    SubmitAnnounces(s, i);
    VolumeKept(s, s');
    forall j | 0 <= j < |s.zones|
      ensures ZoneOk(s', j)
    {
      assert ZoneOk(s, j);
    }
  }

  /** Announcing is a change to the announcing zone and then to a queue. */
  function Announced(s: State, i: nat): State
    requires i < |s.zones| && s.zones[i].phase.Closing?
  {
    var z := s.zones[i];
    s.(zones := s.zones[i := z.(phase := Closing(z.phase.finished, z.phase.next + 1))])
  }

  function Told(s: State, to: nat, chapter: nat): State
    requires to < |s.zones|
  {
    s.(zones := s.zones[to := s.zones[to].(queue := s.zones[to].queue + [chapter])])
  }

  lemma AnnounceMessages(s: State, i: nat)
    requires CoreInv(s) && Enabled(s, Announce(i))
    ensures AnnouncementsOk(Apply(s, Announce(i)))
  {
    hide VolumeOk, ForgetOk, Submitters;
    var s', to, z := Apply(s, Announce(i)), s.zones[i].phase.next, s.zones[i];
    assert ZoneOk(s, i) && ZoneShape(z);
    NoSubmitters(s.zones, s.newest);
    forall k | 0 <= k < |s.zones|
      ensures NotLeftBehind(s', k) && MessagesOk(s', k)
    {
      assert NotLeftBehind(s, k) && MessagesOk(s, k);
      if k == to && to != i {
        assert s'.zones[k].queue == s.zones[k].queue + [z.newest - 1];
      }
      if a :| 0 <= a < |s.zones| && Announces(s.zones[a], s.newest, k) {
        if a != i || to != k {
          assert Announces(s'.zones[a], s.newest, k);
        }
      }
    }
  }

  lemma AnnouncedKeeps(s: State, i: nat)
    requires BaseInv(s) && i < |s.zones| && s.zones[i].phase.Closing?
    ensures BaseInv(Announced(s, i))
  {
    hide VolumeOk, ForgetOk, WriterOk;
    var s1 := Announced(s, i);
    assert ZoneOk(s, i) && ZoneShape(s.zones[i]);
    ForgetKept(s, s1, i);
    OneZoneKeeps(s, s1, i);
  }

  lemma ToldKeeps(s: State, to: nat, chapter: nat)
    requires BaseInv(s) && to < |s.zones|
    ensures BaseInv(Told(s, to, chapter))
  {
    hide VolumeOk, ForgetOk, WriterOk;
    var s1 := Told(s, to, chapter);
    assert ZoneOk(s, to) && ZoneShape(s.zones[to]);
    ForgetKept(s, s1, to);
    OneZoneKeeps(s, s1, to);
  }

  lemma AnnounceKeeps(s: State, i: nat)
    requires CoreInv(s) && Enabled(s, Announce(i))
    ensures CoreInv(Apply(s, Announce(i)))
  {
    hide VolumeOk, ForgetOk, AnnouncementsOk, WriterOk, ZoneOk, ChaptersOk;
    assert ZoneShape(s.zones[i]);
    AnnounceMessages(s, i);
    AnnouncedKeeps(s, i);
    if s.zones[i].phase.next != i {
      ToldKeeps(Announced(s, i), s.zones[i].phase.next, s.zones[i].newest - 1);
    }
  }

  /** Starting to write destroys no chapter of the index. */
  lemma StartWriteKeeps(s: State)
    requires CoreInv(s) && Enabled(s, StartWrite)
    ensures CoreInv(Apply(s, StartWrite))
  {
    hide ForgetOk, AnnouncementsOk, Submitters;
    var s' := Apply(s, StartWrite);
    AllSubmitters(s.zones, s.newest);
    assert ZoneOk(s, 0);
    forall c | s'.oldest <= c < s'.newest && (s'.writer.ok || c + 1 < s'.newest)
      ensures OnVolume(s'.volume, c % s'.slots, Chapter(c, Contents(s'.zones, c)))
    {
      SameSlot(s.slots, s.newest, c);
      assert OnVolume(s.volume, c % s.slots, Chapter(c, Contents(s.zones, c)));
    }
    ForgetSame(s, s');
    AnnouncementsSame(s, s');
    forall j | 0 <= j < |s.zones|
      ensures ZoneOk(s', j)
    {
      assert ZoneOk(s, j);
    }
  }

  lemma ForgetSame(s: State, s': State)
    requires Shape(s) && ChaptersOk(s) && ForgetOk(s)
    requires s' == s.(writer := s'.writer, volume := s'.volume, accepting := s'.accepting, joined := s'.joined)
    requires Shape(s') && s'.writer.zonesToWrite == s.writer.zonesToWrite
    ensures ChaptersOk(s') && ForgetOk(s')
  {
    assert forall j :: 0 <= j < |s.zones| ==> IsLast(s', s'.zones[j]) == IsLast(s, s.zones[j]);
  }

  lemma AnnouncementsSame(s: State, s': State)
    requires AnnouncementsOk(s) && s'.zones == s.zones && s'.newest == s.newest &&
      s'.writer.zonesToWrite == s.writer.zonesToWrite
    ensures AnnouncementsOk(s')
  {
    forall k | 0 <= k < |s.zones|
      ensures NotLeftBehind(s', k) && MessagesOk(s', k)
    {
      assert NotLeftBehind(s, k) && MessagesOk(s, k);
    }
  }

  /** A step that changes no zone and no chapter, and no count of the writer. */
  lemma ZonesSame(s: State, s': State)
    requires CoreInv(s) && Shape(s')
    requires s' == s.(writer := s'.writer, accepting := s'.accepting, joined := s'.joined)
    requires s'.writer.zonesToWrite == s.writer.zonesToWrite && s'.writer.chapters == s.writer.chapters &&
      s'.writer.ok == s.writer.ok
    ensures WriterOk(s') ==> CoreInv(s')
  {
    hide VolumeOk, ForgetOk, AnnouncementsOk, WriterOk;
    ForgetSame(s, s');
    AnnouncementsSame(s, s');
    VolumeKept(s, s');
    forall j | 0 <= j < |s.zones|
      ensures ZoneOk(s', j)
    {
      assert ZoneOk(s, j);
    }
  }

  /** What is read from a buffer is what was put in the chapter. */
  lemma CollectKeeps(s: State)
    requires CoreInv(s) && Enabled(s, Collect)
    ensures CoreInv(Apply(s, Collect))
  {
    hide VolumeOk, ForgetOk, AnnouncementsOk, ChaptersOk, Submitters;
    var s', i := Apply(s, Collect), |s.writer.collected|;
    AllSubmitters(s.zones, s.newest);
    assert ZoneOk(s, i);
    ZonesSame(s, s');
  }

  lemma StopKeeps(s: State, step: Step)
    requires CoreInv(s) && Enabled(s, step) && (step.Quiesce? || step.Join? || step.Stop? || step.Exit?)
    ensures CoreInv(Apply(s, step))
  {
    hide VolumeOk, ForgetOk, AnnouncementsOk, ChaptersOk, Submitters, ZoneOk;
    ZonesSame(s, Apply(s, step));
  }

  /** When a write is over, the volume holds the chapter. */
  lemma FinishVolume(s: State, ok: bool)
    requires CoreInv(s) && Enabled(s, FinishWrite(ok))
    ensures var s' := Apply(s, FinishWrite(ok)); Shape(s') && ChaptersOk(s') && VolumeOk(s')
  {
    hide ForgetOk, AnnouncementsOk;
    var s' := Apply(s, FinishWrite(ok));
    NextOldestIs(s, s.newest);
    assert s.writer.collected == Contents(s.zones, s.newest);
    forall c | s'.oldest <= c < s'.newest && (s'.writer.ok || c + 1 < s'.newest)
      ensures OnVolume(s'.volume, c % s'.slots, Chapter(c, Contents(s'.zones, c)))
    {
      if c < s.newest {
        SameSlot(s.slots, s.newest, c);
        assert OnVolume(s.volume, c % s.slots, Chapter(c, Contents(s.zones, c)));
      }
    }
  }

  lemma FinishZone(s: State, ok: bool, j: nat)
    requires CoreInv(s) && Enabled(s, FinishWrite(ok)) && j < |s.zones|
    ensures var s' := Apply(s, FinishWrite(ok));
      Shape(s') && ZoneOk(s', j) && !HasSubmitted(s'.zones[j], s'.newest) &&
        IsLast(s', s'.zones[j]) == IsLast(s, s.zones[j])
  {
    hide VolumeOk, AnnouncementsOk, ForgetOk, Submitters;
    AllSubmitters(s.zones, s.newest);
    assert ZoneOk(s, j) && HasSubmitted(s.zones[j], s.newest);
  }

  lemma FinishForgets(s: State, ok: bool)
    requires CoreInv(s) && Enabled(s, FinishWrite(ok))
    ensures var s' := Apply(s, FinishWrite(ok)); Shape(s') && ChaptersOk(s') && ForgetOk(s')
  {
    hide VolumeOk, AnnouncementsOk, ZoneOk, Submitters;
    var s' := Apply(s, FinishWrite(ok));
    NextOldestIs(s, s.newest);
    forall j | 0 <= j < |s.zones|
      ensures IsLast(s', s'.zones[j]) == IsLast(s, s.zones[j])
    {
    }
  }

  lemma FinishKeeps(s: State, ok: bool)
    requires CoreInv(s) && Enabled(s, FinishWrite(ok))
    ensures CoreInv(Apply(s, FinishWrite(ok)))
  {
    hide VolumeOk, AnnouncementsOk, ForgetOk, ZoneOk, Submitters;
    var s' := Apply(s, FinishWrite(ok));
    FinishVolume(s, ok);
    FinishForgets(s, ok);
    FinishAnnouncements(s, s');
    forall j | 0 <= j < |s.zones|
      ensures ZoneOk(s', j) && !HasSubmitted(s'.zones[j], s'.newest)
    {
      FinishZone(s, ok, j);
    }
    NoSubmitters(s'.zones, s'.newest);
  }

  lemma FinishAnnouncements(s: State, s': State)
    requires AnnouncementsOk(s) && s'.zones == s.zones && s'.newest == s.newest + 1 && s'.writer.zonesToWrite == 0
    ensures AnnouncementsOk(s')
  {
    forall k | 0 <= k < |s.zones|
      ensures NotLeftBehind(s', k) && MessagesOk(s', k)
    {
      assert NotLeftBehind(s, k) && MessagesOk(s, k);
    }
  }

  lemma CoreStepKeeps(s: State, step: Step)
    requires CoreInv(s) && Enabled(s, step)
    ensures CoreInv(Apply(s, step))
  {
    hide CoreInv, Apply, Enabled;
    match step
    case Put(i, r) => PutKeeps(s, i, r);
    case Close(i) => CloseKeeps(s, i);
    case Handle(i) => HandleKeeps(s, i);
    case Advance(i) => AdvanceKeeps(s, i);
    case Submit(i) => SubmitKeeps(s, i);
    case Fail(i) => FailKeeps(s, i);
    case Announce(i) => AnnounceKeeps(s, i);
    case Retire(i) => RetireKeeps(s, i);
    case StartWrite => StartWriteKeeps(s);
    case Collect => CollectKeeps(s);
    case FinishWrite(ok) => FinishKeeps(s, ok);
    case Quiesce => StopKeeps(s, step);
    case Join => StopKeeps(s, step);
    case Stop => StopKeeps(s, step);
    case Exit => StopKeeps(s, step);
  }

  lemma ZoneStepDrains(s: State, step: Step, i: nat)
    requires Inv(s) && Enabled(s, step) && i < |s.zones|
    ensures |Apply(s, step).zones| == |s.zones| && Follows(Apply(s, step), Apply(s, step).zones[i])
    ensures !s.accepting && !s.zones[i].byRequest ==> !Apply(s, step).zones[i].byRequest
    ensures i < s.joined ==> IsIdle(Apply(s, step).zones[i]) && Apply(s, step).zones[i].queue == []
  {
    hide VolumeOk, ForgetOk, ChaptersOk, Submitters, ZoneOk, WriterOk, AnnouncementsOk, Shape;
    assert Follows(s, s.zones[i]);
    if step.FinishWrite? {
      FinishDrains(s, step.ok, i);
    }
    if step.Announce? {
      assert Follows(s, s.zones[step.zone]);
    }
    if step.Handle? && i == step.zone && s.zones[i].queue[0] == s.zones[i].newest {
      HandleDrains(s, i);
    }
  }

  /** When a write is over, no zone is about to submit the chapter written. */
  lemma FinishDrains(s: State, ok: bool, i: nat)
    requires CoreInv(s) && Enabled(s, FinishWrite(ok)) && i < |s.zones|
    ensures !s.zones[i].phase.Swapped? && !s.zones[i].phase.Advanced?
  {
    hide VolumeOk, ForgetOk, ChaptersOk, Submitters, AnnouncementsOk;
    AllSubmitters(s.zones, s.newest);
    assert ZoneOk(s, i) && HasSubmitted(s.zones[i], s.newest);
  }

  /** A zone that is told to close its chapter is told by one that has. */
  lemma HandleDrains(s: State, i: nat)
    requires CoreInv(s) && Enabled(s, Handle(i)) && s.zones[i].queue[0] == s.zones[i].newest
    ensures s.writer.zonesToWrite > 0
  {
    hide VolumeOk, ForgetOk, ChaptersOk, Submitters, WriterOk;
    assert ZoneOk(s, i) && MessagesOk(s, i) && s.zones[i].queue[0] in s.zones[i].queue;
  }

  lemma DrainKept(s: State, step: Step)
    requires Inv(s) && Enabled(s, step)
    ensures DrainOk(Apply(s, step))
  {
    hide VolumeOk, ForgetOk, AnnouncementsOk, Submitters, Follows, ZoneOk, IsIdle;
    forall i | 0 <= i < |s.zones|
      ensures Follows(Apply(s, step), Apply(s, step).zones[i])
      ensures !s.accepting && !s.zones[i].byRequest ==> !Apply(s, step).zones[i].byRequest
      ensures i < s.joined ==> IsIdle(Apply(s, step).zones[i]) && Apply(s, step).zones[i].queue == []
    {
      ZoneStepDrains(s, step, i);
    }
  }

  lemma StepKeeps(s: State, step: Step)
    requires Inv(s) && Enabled(s, step)
    ensures Inv(Apply(s, step))
  {
    hide CoreInv, DrainOk, Apply, Enabled;
    CoreStepKeeps(s, step);
    DrainKept(s, step);
  }

  // ----- Runs -----

  /** All zones and the index are in the same chapter, and nothing is in flight. */
  ghost predicate Initial(s: State) {
    && Shape(s) && ChaptersOk(s) && s.newest == s.start && s.forgotten == [] && VolumeOk(s)
    && s.writer.zonesToWrite == 0 && !s.writer.writing && s.writer.ok && !s.writer.stop && !s.writer.exited
    && s.accepting && s.joined == 0
    && forall i :: 0 <= i < |s.zones| ==> Fresh(s, s.zones[i])
  }

  ghost predicate Fresh(s: State, z: Zone)
    requires ZoneShape(z)
  {
    && z.phase.Open? && !z.byRequest && z.newest == s.newest && z.oldest == s.oldest
    && z.submitted == [] && z.queue == []
    && z.buffers[z.open] == PutsIn(z, z.newest) && forall c :: c in z.puts ==> c <= z.newest
  }

  lemma InitialInv(s: State)
    requires Initial(s)
    ensures Inv(s)
  {
    hide VolumeOk;
    NoSubmitters(s.zones, s.newest);
    assert forall i :: 0 <= i < |s.zones| ==> Fresh(s, s.zones[i]);
    assert forall i :: 0 <= i < |s.zones| ==> !HasSubmitted(s.zones[i], s.newest) && !IsLast(s, s.zones[i]);
  }

  ghost predicate IsRun(s: State, steps: seq<Step>, t: State)
    decreases |steps|
  {
    if steps == [] then t == s
    else Shape(s) && Enabled(s, steps[0]) && IsRun(Apply(s, steps[0]), steps[1..], t)
  }

  lemma {:induction false} RunKeeps(s: State, steps: seq<Step>, t: State)
    requires Inv(s) && IsRun(s, steps, t)
    ensures Inv(t)
    decreases |steps|
  {
    hide Inv, Apply, Enabled, Shape;
    if steps != [] {
      StepKeeps(s, steps[0]);
      RunKeeps(Apply(s, steps[0]), steps[1..], t);
    }
  }

  ghost predicate Reachable(t: State) {
    exists s, steps :: Initial(s) && IsRun(s, steps, t)
  }

  lemma ReachableInv(t: State)
    requires Reachable(t)
    ensures Inv(t)
  {
    hide Inv, Initial, IsRun;
    var s, steps :| Initial(s) && IsRun(s, steps, t);
    InitialInv(s);
    RunKeeps(s, steps, t);
  }

  // ----- What holds over every run -----

  /** Every zone is at the newest chapter of the index or one ahead, it has submitted
      every chapter before its own exactly once and in order, and the writer's count
      is the number of zones that have submitted the newest chapter. */
  lemma ZonesInStep(t: State, i: nat)
    requires Reachable(t) && i < |t.zones|
    ensures t.newest <= t.zones[i].newest <= t.newest + 1
    ensures forall k :: 0 <= k < |t.zones[i].submitted| ==> t.zones[i].submitted[k] == t.start + k
    ensures t.start + |t.zones[i].submitted| == t.zones[i].newest - (if t.zones[i].phase.Advanced? then 1 else 0)
    ensures t.writer.zonesToWrite == Submitters(t.zones, t.newest)
  {
    ReachableInv(t);
    assert ZoneOk(t, i);
  }

  /** A buffer that the writer has been given is not the open chapter of its zone, and
      no step changes it until the write is over. */
  lemma HandedBufferKept(t: State, step: Step, i: nat)
    requires Reachable(t) && i < |t.zones| && HasSubmitted(t.zones[i], t.newest)
    requires Shape(t) && Enabled(t, step) && !step.FinishWrite?
    ensures var b := t.writer.chapters[i];
      && b != t.zones[i].open && b != Apply(t, step).zones[i].open
      && Apply(t, step).writer.chapters[i] == b
      && Apply(t, step).zones[i].buffers[b] == t.zones[i].buffers[b] == PutsIn(t.zones[i], t.newest)
  {
    hide VolumeOk, ForgetOk, AnnouncementsOk, WriterOk, Reachable;
    ReachableInv(t);
    assert ZoneOk(t, i) && ZoneShape(t.zones[i]);
  }

  /** The volume holds every chapter from the oldest to the newest, with exactly the
      records that were put in it. A write that fails loses only its own chapter. */
  lemma ChaptersOnVolume(t: State, chapter: nat)
    requires Reachable(t) && t.oldest <= chapter < t.newest && (t.writer.ok || chapter + 1 < t.newest)
    ensures Shape(t) && OnVolume(t.volume, chapter % t.slots, Chapter(chapter, Contents(t.zones, chapter)))
  {
    ReachableInv(t);
  }

  /** The chapters dropped from the cache are the oldest ones, in order and each once,
      and a chapter is dropped before another is written over it. */
  lemma ForgottenInOrder(t: State)
    requires Reachable(t)
    ensures forall k :: 0 <= k < |t.forgotten| ==> t.forgotten[k] == t.first + k
    ensures Shape(t) && Enabled(t, StartWrite) && t.newest >= t.first + t.slots ==> t.newest - t.slots in t.forgotten
  {
    ReachableInv(t);
    if Enabled(t, StartWrite) && t.newest >= t.first + t.slots {
      var k := t.newest - t.slots - t.first;
      assert k < |t.forgotten| by {
        if i :| 0 <= i < |t.zones| && IsLast(t, t.zones[i]) {
        } else {
          assert forall i :: 0 <= i < |t.zones| ==> !IsLast(t, t.zones[i]);
        }
      }
      assert t.forgotten[k] == t.newest - t.slots;
    }
  }

  /** The check in reapOldestChapter never fails. */
  lemma ReapNeverFails(t: State, i: nat)
    requires Reachable(t) && i < |t.zones|
    ensures t.zones[i].oldest <= t.zones[i].newest <= t.zones[i].oldest + t.slots
  {
    ReachableInv(t);
    assert ZoneOk(t, i) && ZoneShape(t.zones[i]);
  }

  /** After a write has failed no zone closes a chapter and nothing is written. */
  lemma FailureStops(t: State, step: Step)
    requires Reachable(t) && !t.writer.ok && Shape(t) && Enabled(t, step)
    ensures var u := Apply(t, step);
      && !u.writer.ok && u.newest == t.newest && u.volume == t.volume
      && forall i :: 0 <= i < |t.zones| ==> u.zones[i].newest == t.newest
  {
    hide Shape, ZoneOk, WriterOk, VolumeOk, ForgetOk, AnnouncementsOk, Reachable, DrainOk, ChaptersOk, Enabled, Apply;
    ReachableInv(t);
    FailedAtRest(t);
    StaysAtRest(t, step);
  }

  /** No zone is closing a chapter, and the writer has nothing to write. */
  ghost predicate AtRest(s: State) {
    && !s.writer.ok && !s.writer.writing && s.writer.zonesToWrite < |s.zones|
    && forall i :: 0 <= i < |s.zones| ==>
      s.zones[i].newest == s.newest && !s.zones[i].phase.Swapped? && !s.zones[i].phase.Advanced?
  }

  lemma FailedAtRest(s: State)
    requires BaseInv(s) && !s.writer.ok
    ensures AtRest(s)
  {
    hide VolumeOk, ForgetOk, Submitters, ChaptersOk;
    assert forall i :: 0 <= i < |s.zones| ==> ZoneOk(s, i) && !HasSubmitted(s.zones[i], s.newest);
    NoSubmitters(s.zones, s.newest);
  }

  lemma StaysAtRest(s: State, step: Step)
    requires Shape(s) && Enabled(s, step) && AtRest(s)
    ensures var u := Apply(s, step);
      && !u.writer.ok && u.newest == s.newest && u.volume == s.volume && |u.zones| == |s.zones|
      && forall i :: 0 <= i < |s.zones| ==> u.zones[i].newest == s.newest
  {
  }

  // ----- Progress -----

  /** Steps that finish what has been begun, rather than begin something. */
  predicate Finishing(step: Step) {
    step.Handle? || step.Advance? || step.Submit? || step.Announce? || step.Retire? || step.StartWrite? ||
      step.Collect? || step.FinishWrite?
  }

  ghost predicate Quiet(s: State) {
    && s.writer.zonesToWrite == 0
    && forall i :: 0 <= i < |s.zones| ==> s.zones[i].phase.Open? && s.zones[i].queue == []
  }

  function ZoneRank(z: Zone, n: nat): nat {
    8 * |z.queue| + match z.phase
      case Open => 0
      case Swapped => 4
      case Advanced(_) => 3
      case Closing(_, next) => 1 + (if next < n then 9 * (n - next) else 0)
  }

  function ZoneRanks(zones: seq<Zone>, n: nat): nat {
    if zones == [] then 0 else ZoneRanks(zones[..|zones| - 1], n) + ZoneRank(zones[|zones| - 1], n)
  }

  predicate MayBeFirst(z: Zone) {
    z.phase.Swapped? || z.phase.Advanced?
  }

  function WriterRank(s: State): nat {
    if s.writer.zonesToWrite == 0 then 0
    else if !s.writer.writing then |s.zones| + 2
    else if |s.writer.collected| <= |s.zones| then |s.zones| + 1 - |s.writer.collected| else 0
  }

  /** A bound on the number of finishing steps. A zone that may be the first to submit
      a chapter still has all the other zones to tell. */
  ghost function Rank(s: State): nat {
    ZoneRanks(s.zones, |s.zones|) + WriterRank(s) +
    (if s.writer.zonesToWrite == 0 && SomeMayBeFirst(s) then 10 * |s.zones| + 10 else 0)
  }

  ghost predicate SomeMayBeFirst(s: State) {
    exists i :: 0 <= i < |s.zones| && MayBeFirst(s.zones[i])
  }

  lemma {:induction false} RanksUpdate(zones: seq<Zone>, n: nat, i: nat, z: Zone)
    requires i < |zones|
    ensures ZoneRanks(zones[i := z], n) == ZoneRanks(zones, n) - ZoneRank(zones[i], n) + ZoneRank(z, n)
  {
    var k := |zones| - 1;
    if i == k {
      assert zones[i := z][..k] == zones[..k];
    } else {
      RanksUpdate(zones[..k], n, i, z);
      assert zones[i := z][..k] == zones[..k][i := z];
    }
  }

  /** Every finishing step lowers the rank, so there are not infinitely many. */
  lemma FinishingLowersRank(s: State, step: Step)
    requires Inv(s) && Enabled(s, step) && Finishing(step)
    ensures Rank(Apply(s, step)) < Rank(s)
  {
    match step
    case Handle(i) => HandleRank(s, i);
    case Advance(i) => AdvanceRank(s, i);
    case Submit(i) => SubmitRank(s, i);
    case Announce(i) => AnnounceRank(s, i);
    case Retire(i) => RetireRank(s, i);
    case StartWrite =>
    case Collect =>
    case FinishWrite(ok) => FinishRank(s, ok);
  }

  /** The rank after a change to one zone that is as likely to be first as before. */
  lemma ZoneChangeRank(s: State, s': State, i: nat)
    requires i < |s.zones| == |s'.zones| && s'.writer == s.writer && s'.zones == s.zones[i := s'.zones[i]]
    requires s.writer.zonesToWrite > 0 || MayBeFirst(s'.zones[i]) == MayBeFirst(s.zones[i])
    ensures Rank(s') == Rank(s) - ZoneRank(s.zones[i], |s.zones|) + ZoneRank(s'.zones[i], |s.zones|)
  {
    hide ZoneRank;
    RanksUpdate(s.zones, |s.zones|, i, s'.zones[i]);
    if s.writer.zonesToWrite == 0 {
      assert forall k :: 0 <= k < |s.zones| ==> MayBeFirst(s'.zones[k]) == MayBeFirst(s.zones[k]);
    }
  }

  lemma HandleRank(s: State, i: nat)
    requires Inv(s) && Enabled(s, Handle(i))
    ensures Rank(Apply(s, Handle(i))) < Rank(s)
  {
    hide WriterOk, VolumeOk, ForgetOk, Rank;
    var z := s.zones[i];
    assert ZoneOk(s, i) && MessagesOk(s, i) && z.queue[0] in z.queue;
    ZoneChangeRank(s, Apply(s, Handle(i)), i);
  }

  lemma AdvanceRank(s: State, i: nat)
    requires Inv(s) && Enabled(s, Advance(i))
    ensures Rank(Apply(s, Advance(i))) < Rank(s)
  {
    hide WriterOk, VolumeOk, ForgetOk, ZoneOk, AnnouncementsOk, Rank;
    ZoneChangeRank(s, Apply(s, Advance(i)), i);
  }

  lemma SubmitRank(s: State, i: nat)
    requires Inv(s) && Enabled(s, Submit(i))
    ensures Rank(Apply(s, Submit(i))) < Rank(s)
  {
    hide VolumeOk, ForgetOk, AnnouncementsOk;
    SubmitCounts(s, i);
    RanksUpdate(s.zones, |s.zones|, i, Apply(s, Submit(i)).zones[i]);
    assert MayBeFirst(s.zones[i]);
  }

  lemma AnnounceRank(s: State, i: nat)
    requires Inv(s) && Enabled(s, Announce(i))
    ensures Rank(Apply(s, Announce(i))) < Rank(s)
  {
    hide WriterOk, VolumeOk, ForgetOk, ZoneOk, AnnouncementsOk, Rank;
    var s1, to := Announced(s, i), s.zones[i].phase.next;
    ZoneChangeRank(s, s1, i);
    if to != i {
      ZoneChangeRank(s1, Told(s1, to, s.zones[i].newest - 1), to);
    }
  }

  lemma RetireRank(s: State, i: nat)
    requires Inv(s) && Enabled(s, Retire(i))
    ensures Rank(Apply(s, Retire(i))) < Rank(s)
  {
    hide WriterOk, VolumeOk, ForgetOk, ZoneOk, AnnouncementsOk, Rank;
    ZoneChangeRank(s, Apply(s, Retire(i)), i);
  }

  lemma FinishRank(s: State, ok: bool)
    requires Inv(s) && Enabled(s, FinishWrite(ok))
    ensures Rank(Apply(s, FinishWrite(ok))) < Rank(s)
  {
    hide VolumeOk, ForgetOk, AnnouncementsOk, Submitters;
    AllSubmitters(s.zones, s.newest);
    forall k | 0 <= k < |s.zones|
      ensures !MayBeFirst(s.zones[k])
    {
      assert ZoneOk(s, k);
    }
  }

  /** No zone has failed to submit a chapter. */
  ghost predicate NoneFailed(s: State) {
    forall i :: 0 <= i < |s.zones| ==> s.zones[i].phase != Advanced(true)
  }

  /** As long as anything has been begun, some step can go on with it. */
  lemma SomeStepEnabled(s: State) returns (step: Step)
    requires Inv(s) && s.writer.ok && NoneFailed(s) && !Quiet(s)
    ensures Finishing(step) && Enabled(s, step) && step != FinishWrite(false)
  {
    hide VolumeOk, ForgetOk;
    if i :| 0 <= i < |s.zones| && !s.zones[i].phase.Open? {
      match s.zones[i].phase
      case Swapped => return Advance(i);
      case Advanced(_) => return Submit(i);
      case Closing(_, next) => return if next < |s.zones| then Announce(i) else Retire(i);
    }
    if s.writer.writing {
      return if |s.writer.collected| < |s.zones| then Collect else FinishWrite(true);
    }
    if s.writer.zonesToWrite == |s.zones| {
      return StartWrite;
    }
    var i := SomeQueue(s);
    assert ZoneOk(s, i) && MessagesOk(s, i) && s.zones[i].queue[0] in s.zones[i].queue;
    return Handle(i);
  }

  /** If all zones are open and not all have submitted, an announcement is waiting. */
  lemma SomeQueue(s: State) returns (i: nat)
    requires Inv(s) && !Quiet(s) && s.writer.zonesToWrite < |s.zones|
    requires forall k :: 0 <= k < |s.zones| ==> s.zones[k].phase.Open?
    ensures i < |s.zones| && s.zones[i].queue != []
  {
    hide VolumeOk, ForgetOk, Submitters;
    if k :| 0 <= k < |s.zones| && s.zones[k].queue != [] {
      return k;
    }
    AllSubmitters(s.zones, s.newest);
    i :| 0 <= i < |s.zones| && !HasSubmitted(s.zones[i], s.newest);
    assert ZoneOk(s, i) && NotLeftBehind(s, i);
  }

  /** From every reachable state in which no write has failed, the zones can finish
      what has been begun, and then all of them are in one chapter, which is the
      newest, and all earlier chapters are on the volume. */
  lemma {:induction false} CanFinish(s: State) returns (steps: seq<Step>, t: State)
    requires Inv(s) && s.writer.ok && NoneFailed(s)
    ensures IsRun(s, steps, t) && forall k :: 0 <= k < |steps| ==> Finishing(steps[k])
    ensures |steps| <= Rank(s)
    ensures Inv(t) && Quiet(t) && t.writer.ok && forall i :: 0 <= i < |t.zones| ==> t.zones[i].newest == t.newest
    decreases Rank(s)
  {
    hide Inv, Rank, Enabled, Apply;
    if Quiet(s) {
      QuietInStep(s);
      return [], s;
    }
    var step := SomeStepEnabled(s);
    StepKeeps(s, step);
    FinishingLowersRank(s, step);
    StillRunning(s, step);
    InvShape(s);
    var rest;
    rest, t := CanFinish(Apply(s, step));
    steps := [step] + rest;
    assert steps[1..] == rest;
  }

  lemma InvShape(s: State)
    requires Inv(s)
    ensures Shape(s)
  {
  }

  lemma StillRunning(s: State, step: Step)
    requires Inv(s) && s.writer.ok && NoneFailed(s) && Enabled(s, step) && Finishing(step) && step != FinishWrite(false)
    ensures Apply(s, step).writer.ok && NoneFailed(Apply(s, step))
  {
    hide CoreInv, DrainOk;
    InvShape(s);
  }

  lemma QuietInStep(s: State)
    requires Inv(s) && Quiet(s)
    ensures forall i :: 0 <= i < |s.zones| ==> s.zones[i].newest == s.newest
  {
    NoSubmitters(s.zones, s.newest);
    forall i | 0 <= i < |s.zones|
      ensures s.zones[i].newest == s.newest
    {
      assert ZoneOk(s, i);
    }
  }

  /** However the steps are scheduled, a run of finishing steps is not longer than the
      rank of the state it starts in. */
  lemma {:induction false} FinishingRunIsShort(s: State, steps: seq<Step>, t: State)
    requires Inv(s) && IsRun(s, steps, t) && forall k :: 0 <= k < |steps| ==> Finishing(steps[k])
    ensures |steps| + Rank(t) <= Rank(s)
    decreases |steps|
  {
    hide Inv, Rank, Enabled, Apply, Shape;
    if steps != [] {
      StepKeeps(s, steps[0]);
      FinishingLowersRank(s, steps[0]);
      FinishingRunIsShort(Apply(s, steps[0]), steps[1..], t);
    }
  }

  /** When the writer exits, the zone threads have been joined. All zones are then in
      the same chapter if and only if none has failed to submit one. */
  lemma StoppedInStep(t: State)
    requires Reachable(t) && Shape(t) && Enabled(t, Exit)
    ensures (forall i :: 0 <= i < |t.zones| ==> t.zones[i].newest == t.newest) <==> NoneFailed(t)
    ensures NoneFailed(t) ==> Quiet(t)
  {
    hide VolumeOk, ForgetOk, AnnouncementsOk, Submitters, Reachable;
    ReachableInv(t);
    NoSubmitters(t.zones, t.newest);
    forall i | 0 <= i < |t.zones|
      ensures IsIdle(t.zones[i]) && t.zones[i].queue == []
      ensures t.zones[i].newest == t.newest <==> t.zones[i].phase != Advanced(true)
    {
      assert ZoneOk(t, i) && !HasSubmitted(t.zones[i], t.newest);
    }
  }

  /** The writer takes no chapter back: it never exits while one is submitted, and as
      long as one zone has failed to submit, none is written. */
  lemma StuckForGood(t: State, step: Step, i: nat)
    requires Reachable(t) && i < |t.zones| && t.zones[i].phase == Advanced(true)
    requires Shape(t) && Enabled(t, step)
    ensures var u := Apply(t, step);
      && |u.zones| == |t.zones| && u.zones[i].phase == Advanced(true)
      && u.newest == t.newest && u.volume == t.volume && u.writer.zonesToWrite >= t.writer.zonesToWrite
    ensures t.writer.zonesToWrite > 0 ==> step != Exit
  {
    hide VolumeOk, ForgetOk, AnnouncementsOk, Submitters, Reachable, DrainOk, ChaptersOk;
    ReachableInv(t);
    AllSubmitters(t.zones, t.newest);
    assert ZoneOk(t, i) && !HasSubmitted(t.zones[i], t.newest);
  }

  /** An index with one zone, at the beginning. */
  function LoneZone(): State {
    State(1, 0, 0, 0, 0, [Zone(0, 0, Open, false, 0, [[], []], [], map[], [])],
      Writer(0, [0], false, [], true, false, false), true, 0, map[], [])
  }

  lemma LoneZoneIsInitial()
    ensures Initial(LoneZone())
  {
    var s := LoneZone();
    assert Fresh(s, s.zones[0]);
  }

  /** A state that a step leads to from a reachable one. */
  lemma ReachableStep(t: State, step: Step)
    requires Reachable(t) && Shape(t) && Enabled(t, step)
    ensures Reachable(Apply(t, step))
  {
    hide Initial, Enabled, Apply, Shape;
    var s, steps :| Initial(s) && IsRun(s, steps, t);
    RunThen(s, steps, t, step);
  }

  lemma {:induction false} RunThen(s: State, steps: seq<Step>, t: State, step: Step)
    requires IsRun(s, steps, t) && Shape(t) && Enabled(t, step)
    ensures IsRun(s, steps + [step], Apply(t, step))
    decreases |steps|
  {
    hide Enabled, Apply, Shape;
    if steps == [] {
      var u := Apply(t, step);
      assert IsRun(u, [], u);
      assert [] + [step] == [step] && [step][1..] == [];
    } else {
      RunThen(Apply(s, steps[0]), steps[1..], t, step);
      assert (steps + [step])[1..] == steps[1..] + [step];
    }
  }

  /** So after a failure the writer may exit with a zone that is a chapter ahead, and
      the records of the chapter before are nowhere on the volume. */
  lemma StoppedTooEarly(r: Record) returns (t: State)
    ensures Reachable(t) && Shape(t) && Enabled(t, Exit) && t.zones[0].newest == 1 && t.newest == 0
    ensures PutsIn(t.zones[0], 0) == [r] && t.volume == map[]
  {
    hide Initial, Reachable, IsRun;
    LoneZoneIsInitial();
    t := LoneZone();
    InitialIsReachable(t);
    ReachableStep(t, Put(0, r));
    t := Apply(t, Put(0, r));
    ReachableStep(t, Close(0));
    t := Apply(t, Close(0));
    ReachableStep(t, Advance(0));
    t := Apply(t, Advance(0));
    ReachableStep(t, Fail(0));
    t := StopAfter(Apply(t, Fail(0)));
  }

  /** Closing an index with one idle zone. */
  lemma StopAfter(s: State) returns (t: State)
    requires Reachable(s) && Shape(s) && |s.zones| == 1 && s.accepting && s.joined == 0
    requires IsIdle(s.zones[0]) && !s.zones[0].byRequest && s.zones[0].queue == []
    requires s.writer.zonesToWrite == 0 && !s.writer.writing
    ensures Reachable(t) && Shape(t) && Enabled(t, Exit)
    ensures t.zones == s.zones && t.newest == s.newest && t.volume == s.volume
  {
    hide Reachable;
    t := s;
    ReachableStep(t, Quiesce);
    t := Apply(t, Quiesce);
    ReachableStep(t, Join);
    t := Apply(t, Join);
    ReachableStep(t, Stop);
    t := Apply(t, Stop);
  }

  lemma InitialIsReachable(s: State)
    requires Initial(s)
    ensures Reachable(s)
  {
    assert IsRun(s, [], s);
  }
}
