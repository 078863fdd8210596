/** Completion of an incremental checkpoint (uds/indexComponent.c, uds/indexState.c,
    uds/indexCheckpoint.c), while no component reports an error. */
module Checkpoint {

  /** The phase of one component in one zone. */
  datatype Phase = Idle | Start | Continue | Done

  datatype Completion = NotCompleted | JustCompleted | CompletedPreviously

  /** The order of the completion codes. */
  function Rank(c: Completion): nat {
    match c
    case NotCompleted => 0
    case JustCompleted => 1
    case CompletedPreviously => 2
  }

  predicate AllIdle(phases: seq<Phase>) {
    forall i :: 0 <= i < |phases| ==> phases[i] == Idle
  }

  /** One component in one call of a zone. A component that is saved by the chapter
      writer only notices that it is done. */
  method PerformComponent(phase: Phase, chapterSync: bool, progress: bool) returns (next: Phase, completion: Completion)
    ensures next == Idle <==> completion != NotCompleted
    ensures phase == Idle <==> completion == CompletedPreviously
    ensures next != Idle ==> next == (if phase == Start && !chapterSync then Continue else phase)
    ensures phase == Start || phase == Continue ==> (next == Idle <==> !chapterSync && progress)
    ensures phase == Done ==> next == Idle
  {
    next, completion := phase, NotCompleted;
    if phase == Idle {
      completion := CompletedPreviously;
    } else if phase == Done {
      next, completion := Idle, JustCompleted;
    } else if !chapterSync {
      if progress {
        next, completion := Idle, JustCompleted;
      } else if phase == Start {
        next := Continue;
      }
    }
  }

  lemma OneMoreIdle(phases: seq<Phase>, i: nat)
    requires i < |phases|
    ensures AllIdle(phases[..i + 1]) <==> AllIdle(phases[..i]) && phases[i] == Idle
  {
    assert phases[..i + 1] == phases[..i] + [phases[i]];
    if AllIdle(phases[..i + 1]) {
      assert phases[..i + 1][i] == Idle;
      assert forall k :: 0 <= k < i ==> phases[..i][k] == phases[..i + 1][k];
    }
  }

  /** A zone that still has work to do, or has not yet been counted out. */
  predicate IsBusy(phases: seq<Phase>, pending: bool) {
    !AllIdle(phases) || pending
  }

  ghost function Busy(phases: seq<seq<Phase>>, pending: seq<bool>): (n: nat)
    requires |pending| == |phases|
    ensures n <= |phases|
  {
    if phases == [] then 0
    else
      var k := |phases| - 1;
      Busy(phases[..k], pending[..k]) + (if IsBusy(phases[k], pending[k]) then 1 else 0)
  }

  lemma {:induction false} BusyUpdate(phases: seq<seq<Phase>>, pending: seq<bool>, z: nat, ps: seq<Phase>, p: bool)
    requires z < |phases| == |pending|
    ensures Busy(phases[z := ps], pending[z := p]) ==
      Busy(phases, pending) - (if IsBusy(phases[z], pending[z]) then 1 else 0) + (if IsBusy(ps, p) then 1 else 0)
  {
    var n := |phases| - 1;
    if z < n {
      BusyUpdate(phases[..n], pending[..n], z, ps, p);
      assert phases[z := ps][..n] == phases[..n][z := ps] && pending[z := p][..n] == pending[..n][z := p];
    } else {
      assert phases[z := ps][..n] == phases[..n] && pending[z := p][..n] == pending[..n];
    }
  }

  lemma {:induction false} NoneBusy(phases: seq<seq<Phase>>, pending: seq<bool>)
    requires |phases| == |pending|
    ensures Busy(phases, pending) == 0 <==> forall z :: 0 <= z < |phases| ==> !IsBusy(phases[z], pending[z])
  {
    if phases != [] {
      var n := |phases| - 1;
      NoneBusy(phases[..n], pending[..n]);
      assert forall z :: 0 <= z < n ==> phases[..n][z] == phases[z] && pending[..n][z] == pending[z];
    }
  }

  lemma {:induction false} AllBusy(phases: seq<seq<Phase>>, pending: seq<bool>)
    requires |phases| == |pending| && forall z :: 0 <= z < |phases| ==> IsBusy(phases[z], pending[z])
    ensures Busy(phases, pending) == |phases|
  {
    if phases != [] {
      AllBusy(phases[..|phases| - 1], pending[..|phases| - 1]);
    }
  }

  /** A checkpoint in progress. */
  class IndexCheckpoint {
    /** Which components of each zone are left to the chapter writer. */
    const chapterSync: seq<seq<bool>>
    /** The phases of the components of each zone. */
    var phases: seq<seq<Phase>>
    /** The zones that have just completed and are about to be counted. */
    var pending: seq<bool>
    var zonesBusy: nat
    /** How often the checkpoint has been finished. */
    var finished: nat
    /** How often each zone was told that it has just completed. */
    ghost var reports: seq<nat>

    ghost predicate Valid()
      reads this
    {
      && |phases| == |pending| == |chapterSync| == |reports| > 0
      && (forall z :: 0 <= z < |phases| ==> ZoneOk(z))
      && zonesBusy == Busy(phases, pending) && finished == if zonesBusy == 0 then 1 else 0
    }

    /** A zone has been told so once if all its components are idle, and never before. */
    ghost predicate ZoneOk(z: nat)
      requires z < |phases| == |pending| == |chapterSync| == |reports|
      reads this
    {
      && |phases[z]| == |chapterSync[z]| > 0 && reports[z] == (if AllIdle(phases[z]) then 1 else 0)
      && (pending[z] ==> AllIdle(phases[z]))
    }

    /** Start a checkpoint. Every zone has a component to save. */
    constructor (chapterSync: seq<seq<bool>>)
      requires |chapterSync| > 0 && forall z :: 0 <= z < |chapterSync| ==> |chapterSync[z]| > 0
      ensures Valid() && zonesBusy == |chapterSync| && finished == 0 && reports == seq(|chapterSync|, _ => 0)
    {
      this.chapterSync := chapterSync;
      phases := seq(|chapterSync|, z requires 0 <= z < |chapterSync| => seq(|chapterSync[z]|, _ => Start));
      pending := seq(|chapterSync|, _ => false);
      zonesBusy, finished, reports := |chapterSync|, 0, seq(|chapterSync|, _ => 0);
      new;
      forall z | 0 <= z < |phases|
        ensures ZoneOk(z) && IsBusy(phases[z], pending[z])
      {
        assert phases[z][0] == Start;
      }
      AllBusy(phases, pending);
    }

    /** One call of a zone: every component makes progress or not. The zone is told that
        it has just completed exactly in the call in which its last component becomes
        idle. */
    method Perform(zone: nat, progress: seq<bool>) returns (status: Completion)
      requires Valid() && zone < |phases| && !pending[zone] && |progress| == |phases[zone]|
      modifies this`phases, this`pending, this`reports
      ensures Valid() && phases == old(phases)[zone := phases[zone]] && |phases[zone]| == |old(phases)[zone]|
      ensures status == CompletedPreviously <==> old(AllIdle(phases[zone]))
      ensures status == JustCompleted <==> AllIdle(phases[zone]) && old(!AllIdle(phases[zone]))
      ensures reports == old(reports)[zone := old(reports)[zone] + (if status == JustCompleted then 1 else 0)]
      ensures pending == old(pending)[zone := status == JustCompleted]
    {
      assert ZoneOk(zone);
      ghost var before, others := phases, pending;
      var ps := phases[zone];
      status := CompletedPreviously;
      for i := 0 to |ps|
        invariant phases == before && pending == others && reports == old(reports) && Valid()
        invariant |ps| == |before[zone]| && forall k :: i <= k < |ps| ==> ps[k] == before[zone][k]
        invariant status == CompletedPreviously <==> AllIdle(before[zone][..i])
        invariant status != NotCompleted <==> AllIdle(ps[..i])
      {
        var next, completion := PerformComponent(ps[i], chapterSync[zone][i], progress[i]);
        OneMoreIdle(before[zone], i);
        OneMoreIdle(ps[i := next], i);
        assert ps[i := next][..i] == ps[..i];
        ps := ps[i := next];
        if Rank(completion) < Rank(status) {
          status := completion;
        }
      }
      assert ps[..|ps|] == ps && before[zone][..|ps|] == before[zone];
      BusyUpdate(phases, pending, zone, ps, status == JustCompleted);
      phases := phases[zone := ps];
      pending := pending[zone := status == JustCompleted];
      if status == JustCompleted {
        reports := reports[zone := reports[zone] + 1];
      }
      forall z | 0 <= z < |phases|
        ensures ZoneOk(z)
      {
        assert old(ZoneOk(z));
      }
    }

    /** Count out a zone that has just completed. The last one finishes the checkpoint,
        and then all components of all zones are idle. */
    method CountOut(zone: nat)
      requires Valid() && zone < |phases| && pending[zone]
      modifies this`pending, this`zonesBusy, this`finished
      ensures Valid() && pending == old(pending)[zone := false] && zonesBusy == old(zonesBusy) - 1
      ensures finished == 1 <==> zonesBusy == 0
      ensures finished == 1 ==> forall z :: 0 <= z < |phases| ==> AllIdle(phases[z]) && reports[z] == 1
    {
      NoneBusy(phases, pending);
      BusyUpdate(phases, pending, zone, phases[zone], false);
      assert phases[zone := phases[zone]] == phases;
      assert ZoneOk(zone);
      pending := pending[zone := false];
      zonesBusy := zonesBusy - 1;
      if zonesBusy == 0 {
        finished := finished + 1;
      }
      forall z | 0 <= z < |phases|
        ensures ZoneOk(z)
      {
        assert old(ZoneOk(z));
      }
      NoneBusy(phases, pending);
      if zonesBusy == 0 {
        forall z | 0 <= z < |phases|
          ensures AllIdle(phases[z]) && reports[z] == 1
        {
          assert ZoneOk(z) && !IsBusy(phases[z], pending[z]);
        }
      }
    }

    /** The chapter writer saves a component that is left to it. */
    method ChapterWriterSave(component: nat, progress: bool)
      requires Valid() && component < |phases[0]| == |chapterSync[0]| && chapterSync[0][component]
      modifies this`phases
      ensures Valid() && phases == old(phases)[0 := phases[0]] && |phases[0]| == |old(phases[0])|
      ensures phases[0] == old(phases[0])[component := phases[0][component]]
      ensures old(phases[0][component]) in {Start, Continue} ==>
        phases[0][component] == if progress then Done else Continue
      ensures old(phases[0][component]) in {Idle, Done} ==> phases == old(phases)
    {
      assert ZoneOk(0);
      var phase := phases[0][component];
      if phase != Idle && phase != Done {
        var ps := phases[0][component := if progress then Done else Continue];
        assert !AllIdle(phases[0]) && !AllIdle(ps) by { assert ps[component] != Idle; }
        BusyUpdate(phases, pending, 0, ps, pending[0]);
        assert pending[0 := pending[0]] == pending;
        phases := phases[0 := ps];
        forall z | 0 <= z < |phases|
          ensures ZoneOk(z)
        {
          assert old(ZoneOk(z));
        }
      }
    }
  }
}
