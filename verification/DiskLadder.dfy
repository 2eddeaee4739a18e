/**
 The disk ladder across shards: each tick reports its shard's disk use into one
 shared total, then sacrifices its own oldest segments while the total is above
 the watermark. Ticks of different shards interleave step by step.
 */
module DiskLadder {
  datatype Cause = FloorClear | FloorProtected | NothingReclaimable

  /** Where a shard's tick is: between ticks, about to read the total, above the watermark, or about to store a cause. */
  datatype Pc = Idle | Looping | Above | Concluding(cause: Cause)

  /** `finalized` are the sizes of the finalized segments, oldest first. */
  datatype Shard = Shard(finalized: seq<nat>, active: nat, last: int, cause: Cause, pc: Pc)

  datatype State = State(shards: seq<Shard>, total: int)

  datatype Event =
    | Grow(i: nat, finalized: seq<nat>, active: nat)
    | Report(i: nat, expired: nat)
    | Load(i: nat)
    | Examine(i: nat, protected: bool, removed: bool)
    | Conclude(i: nat)

  function SizeOf(finalized: seq<nat>): (n: nat) {
    if finalized == [] then 0 else finalized[0] + SizeOf(finalized[1..])
  }

  function DiskOf(sh: Shard): (n: nat) {
    SizeOf(sh.finalized) + sh.active
  }

  function Put(s: State, i: nat, sh: Shard): (s': State)
    requires i < |s.shards|
  {
    s.(shards := s.shards[i := sh])
  }

  /**
   One step of one shard's worker. Between ticks the shard grows: appends fill the
   active segment, which is never larger than a segment, and rolls add finalized ones.
   */
  function Step(s: State, limit: int, segment: nat, e: Event): (s': State) {
    if e.i >= |s.shards| then s else
      var i, sh := e.i, s.shards[e.i];
      match e
      case Grow(_, finalized, active) =>
        if sh.pc.Idle? && active <= segment then Put(s, i, sh.(finalized := sh.finalized + finalized, active := active)) else s
      case Report(_, expired) =>
        if sh.pc.Idle? && expired <= |sh.finalized| then
          var kept := sh.(finalized := sh.finalized[expired..], pc := Looping);
          Put(s, i, kept.(last := DiskOf(kept))).(total := s.total + (DiskOf(kept) - sh.last))
        else s
      case Load(_) =>
        if sh.pc.Looping? then Put(s, i, sh.(pc := if s.total > limit then Above else Concluding(FloorClear))) else s
      case Examine(_, protected, removed) =>
        if !sh.pc.Above? then s
        else if sh.finalized == [] || (!protected && !removed) then Put(s, i, sh.(pc := Concluding(NothingReclaimable)))
        else if protected then Put(s, i, sh.(pc := Concluding(FloorProtected)))
        else Put(s, i, sh.(finalized := sh.finalized[1..], last := sh.last - sh.finalized[0], pc := Looping)).(total := s.total - sh.finalized[0])
      case Conclude(_) =>
        if sh.pc.Concluding? then Put(s, i, sh.(cause := sh.pc.cause, pc := Idle)) else s
  }

  function Start(n: nat): (s: State) {
    State(seq(n, i => Shard([], 0, 0, FloorClear, Idle)), 0)
  }

  function Run(n: nat, limit: int, segment: nat, events: seq<Event>): (s: State) {
    if events == [] then Start(n) else Step(Run(n, limit, segment, events[..|events| - 1]), limit, segment, events[|events| - 1])
  }

  // --------------------------------------------------------- the shared total

  function Reports(shards: seq<Shard>): (n: int) {
    if shards == [] then 0 else Reports(shards[..|shards| - 1]) + shards[|shards| - 1].last
  }

  lemma {:induction false} ReportsUpdated(shards: seq<Shard>, i: nat, sh: Shard)
    requires i < |shards|
    ensures Reports(shards[i := sh]) == Reports(shards) - shards[i].last + sh.last
  {
    var n := |shards| - 1;
    if i < n {
      ReportsUpdated(shards[..n], i, sh);
      assert shards[i := sh][..n] == shards[..n][i := sh];
    } else {
      assert shards[i := sh][..n] == shards[..n];
    }
  }

  /** During its tick a shard's report is its disk use; between ticks its active segment fits. */
  ghost predicate ShardOk(sh: Shard, segment: nat) {
    && sh.active <= segment
    && (!sh.pc.Idle? ==> sh.last == DiskOf(sh))
    && (sh.pc == Concluding(NothingReclaimable) ==> sh.finalized == [])
    && (sh.pc.Idle? && sh.cause.NothingReclaimable? ==> sh.last <= segment)
  }

  /** This shard has made, or can no longer avoid, the verdict that nothing is reclaimable. */
  predicate Doomed(sh: Shard) {
    match sh.pc
    case Idle => sh.cause.NothingReclaimable?
    case Looping => false
    case Above => sh.finalized == []
    case Concluding(cause) => cause.NothingReclaimable?
  }

  ghost predicate Inv(s: State, n: nat, segment: nat) {
    && |s.shards| == n
    && s.total == Reports(s.shards)
    && (forall i :: 0 <= i < n ==> ShardOk(s.shards[i], segment))
    && (n > 0 ==> exists i :: 0 <= i < n && !Doomed(s.shards[i]))
  }

  predicate RemovalSucceeds(e: Event) { e.Examine? ==> e.removed }

  lemma DoomedReportsLittle(sh: Shard, segment: nat)
    requires ShardOk(sh, segment) && Doomed(sh)
    ensures sh.last <= segment
  {
  }

  /** If every shard but `b` is doomed and `b` has nothing finalized, the total is within the active segments. */
  lemma {:induction false} AllLittle(shards: seq<Shard>, segment: nat)
    requires forall i :: 0 <= i < |shards| ==> shards[i].last <= segment
    ensures Reports(shards) <= |shards| * segment
  {
    if shards != [] {
      AllLittle(shards[..|shards| - 1], segment);
      assert |shards| * segment == (|shards| - 1) * segment + segment;
    }
  }

  /** Each step keeps the shard it belongs to in order. */
  lemma StepShardOk(s: State, limit: int, segment: nat, e: Event)
    requires e.i < |s.shards| && ShardOk(s.shards[e.i], segment) && RemovalSucceeds(e)
    ensures var s' := Step(s, limit, segment, e);
            && |s'.shards| == |s.shards|
            && ShardOk(s'.shards[e.i], segment)
            && (forall j :: 0 <= j < |s.shards| && j != e.i ==> s'.shards[j] == s.shards[j])
            && s'.shards == s.shards[e.i := s'.shards[e.i]]
            && s'.total - s.total == s'.shards[e.i].last - s.shards[e.i].last
            && (Doomed(s'.shards[e.i]) && !Doomed(s.shards[e.i]) ==> s.total > limit && s'.total == s.total && s.shards[e.i].last <= segment)
  {
    assert s.shards[e.i := s.shards[e.i]] == s.shards;
  }

  lemma StepInv(s: State, n: nat, limit: int, segment: nat, e: Event)
    requires Inv(s, n, segment) && RemovalSucceeds(e) && n * segment < limit
    ensures Inv(Step(s, limit, segment, e), n, segment)
  {
    hide Step, ShardOk, Doomed;
    var s' := Step(s, limit, segment, e);
    if e.i < n {
      StepShardOk(s, limit, segment, e);
      ReportsUpdated(s.shards, e.i, s'.shards[e.i]);
      if forall i :: 0 <= i < n ==> Doomed(s'.shards[i]) {
        forall i | 0 <= i < n
          ensures s.shards[i].last <= segment
        {
          if i != e.i {
            DoomedReportsLittle(s.shards[i], segment);
          }
        }
        AllLittle(s.shards, segment);
        assert false;
      }
    } else {
      NoSuchShard(s, limit, segment, e);
    }
  }

  lemma NoSuchShard(s: State, limit: int, segment: nat, e: Event)
    requires e.i >= |s.shards|
    ensures Step(s, limit, segment, e) == s
  {
  }

  lemma {:induction false} NothingReported(n: nat)
    ensures Reports(Start(n).shards) == 0
  {
    if n > 0 {
      NothingReported(n - 1);
      assert Start(n).shards[..n - 1] == Start(n - 1).shards;
    }
  }

  lemma {:induction false} RunInv(n: nat, limit: int, segment: nat, events: seq<Event>)
    requires n * segment < limit && forall e :: e in events ==> RemovalSucceeds(e)
    ensures Inv(Run(n, limit, segment, events), n, segment)
  {
    if events == [] {
      NothingReported(n);
      assert n > 0 ==> !Doomed(Start(n).shards[0]);
    } else {
      hide Inv, Step;
      var m := |events| - 1;
      assert events[m] in events;
      RunInv(n, limit, segment, events[..m]);
      StepInv(Run(n, limit, segment, events[..m]), n, limit, segment, events[m]);
    }
  }

  // ---------------------------------------------------------------- theorems

  /** Always, whatever removals do: the total is the sum of the last reports. */
  lemma {:induction false} TotalIsSumOfReports(n: nat, limit: int, segment: nat, events: seq<Event>)
    ensures |Run(n, limit, segment, events).shards| == n
    ensures Run(n, limit, segment, events).total == Reports(Run(n, limit, segment, events).shards)
  {
    if events == [] {
      NothingReported(n);
    } else {
      hide Step;
      var m := |events| - 1;
      TotalIsSumOfReports(n, limit, segment, events[..m]);
      StepTotal(Run(n, limit, segment, events[..m]), limit, segment, events[m]);
    }
  }

  lemma StepTotal(s: State, limit: int, segment: nat, e: Event)
    ensures var s' := Step(s, limit, segment, e);
            |s'.shards| == |s.shards| && s'.total - s.total == Reports(s'.shards) - Reports(s.shards)
  {
    if e.i < |s.shards| {
      ReportsUpdated(s.shards, e.i, Step(s, limit, segment, e).shards[e.i]);
      assert s.shards[e.i := s.shards[e.i]] == s.shards;
      assert Step(s, limit, segment, e).shards == s.shards[e.i := Step(s, limit, segment, e).shards[e.i]];
    }
  }

  ghost predicate Reported(s: State) {
    forall i :: 0 <= i < |s.shards| && !s.shards[i].pc.Idle? ==> s.shards[i].last == DiskOf(s.shards[i])
  }

  lemma StepReported(s: State, limit: int, segment: nat, e: Event)
    requires Reported(s)
    ensures Reported(Step(s, limit, segment, e))
  {
  }

  /**
   Whatever removals do and wherever the watermark lies: from its report to the
   end of its tick a shard's report equals its disk use, and it still does when
   the tick has stored its cause.
   */
  lemma {:induction false} ReportIsExact(n: nat, limit: int, segment: nat, events: seq<Event>)
    ensures Reported(Run(n, limit, segment, events))
    ensures var s := Run(n, limit, segment, events);
            forall i :: 0 <= i < |s.shards| && s.shards[i].pc.Concluding? ==>
              var s' := Step(s, limit, segment, Conclude(i));
              |s'.shards| == |s.shards| && s'.shards[i].pc.Idle? && s'.shards[i].last == DiskOf(s'.shards[i])
  {
    if events != [] {
      var m := |events| - 1;
      ReportIsExact(n, limit, segment, events[..m]);
      StepReported(Run(n, limit, segment, events[..m]), limit, segment, events[m]);
    }
  }

  /**
   With a watermark above the active segments and removals that succeed: whenever
   no shard is inside a tick, not all shards are at NothingReclaimable.
   */
  lemma NeverAllStuckBetweenTicks(n: nat, limit: int, segment: nat, events: seq<Event>)
    requires n > 0 && n * segment < limit && forall e :: e in events ==> RemovalSucceeds(e)
    requires var s := Run(n, limit, segment, events); forall i :: 0 <= i < |s.shards| ==> s.shards[i].pc.Idle?
    ensures var s := Run(n, limit, segment, events); exists i :: 0 <= i < |s.shards| && !s.shards[i].cause.NothingReclaimable?
  {
    hide Run, ShardOk;
    RunInv(n, limit, segment, events);
    var s := Run(n, limit, segment, events);
    var i :| 0 <= i < n && !Doomed(s.shards[i]);
    assert s.shards[i].pc.Idle?;
  }

  /**
   All stored causes can say NothingReclaimable at once only while some shard is
   inside a tick and has not yet found its own segments exhausted.
   */
  lemma AllStuckOnlyInsideATick(n: nat, limit: int, segment: nat, events: seq<Event>)
    requires n > 0 && n * segment < limit && forall e :: e in events ==> RemovalSucceeds(e)
    requires var s := Run(n, limit, segment, events); forall i :: 0 <= i < |s.shards| ==> s.shards[i].cause.NothingReclaimable?
    ensures var s := Run(n, limit, segment, events); exists i :: 0 <= i < |s.shards| && !s.shards[i].pc.Idle? && !Doomed(s.shards[i])
  {
    hide Run, ShardOk;
    RunInv(n, limit, segment, events);
    var s := Run(n, limit, segment, events);
    var i :| 0 <= i < n && !Doomed(s.shards[i]);
    assert s.shards[i].cause.NothingReclaimable?;
  }

  lemma RunSnoc(events: seq<Event>, e: Event)
    ensures Run(2, 210, 100, events + [e]) == Step(Run(2, 210, 100, events), 210, 100, e)
  {
    assert (events + [e])[..|events|] == events;
  }

  /** One tick of shard `i` that finds nothing of its own to reclaim. */
  lemma StuckTick(events: seq<Event>, i: nat) returns (longer: seq<Event>)
    requires var s := Run(2, 210, 100, events);
             && i < |s.shards| && s.shards[i].pc.Idle? && s.shards[i].finalized == []
             && s.total + s.shards[i].active - s.shards[i].last > 210
    ensures var s, s' := Run(2, 210, 100, events), Run(2, 210, 100, longer);
            && longer == events + [Report(i, 0), Load(i), Examine(i, false, true), Conclude(i)]
            && s'.total == s.total + s.shards[i].active - s.shards[i].last
            && s'.shards == s.shards[i := s.shards[i].(last := s.shards[i].active, cause := NothingReclaimable)]
  {
    hide Run;
    var s, sh := Run(2, 210, 100, events), Run(2, 210, 100, events).shards[i];
    var e1 := events + [Report(i, 0)];
    RunSnoc(events, Report(i, 0));
    var s1 := Run(2, 210, 100, e1);
    assert s1.shards[i] == sh.(last := sh.active, pc := Looping) && s1.total == s.total + sh.active - sh.last;
    var e2 := e1 + [Load(i)];
    RunSnoc(e1, Load(i));
    var e3 := e2 + [Examine(i, false, true)];
    RunSnoc(e2, Examine(i, false, true));
    longer := e3 + [Conclude(i)];
    RunSnoc(e3, Conclude(i));
    assert longer == events + [Report(i, 0), Load(i), Examine(i, false, true), Conclude(i)];
  }

  /**
   Inside a tick it does happen: shard 0 was stuck, then grew; it has reported
   but not looked yet when shard 1 finds the total high and nothing of its own.
   Segments hold 100 bytes; a finalized file is three 30-byte records with their
   directory and trailer, 198 bytes, and an active one a single 50-byte record.
   */
  lemma AllStuckInsideATick() returns (events: seq<Event>)
    ensures forall e :: e in events ==> RemovalSucceeds(e)
    ensures var s := Run(2, 210, 100, events);
            |s.shards| == 2 && s.shards[0].cause.NothingReclaimable? && s.shards[1].cause.NothingReclaimable? && s.shards[0].pc.Looping?
  {
    hide Run;
    RunStart();
    assert [] + [Grow(1, [198], 50)] == [Grow(1, [198], 50)];
    var e1 := [] + [Grow(1, [198], 50)];
    RunSnoc([], Grow(1, [198], 50));
    var e2 := e1 + [Report(1, 0)];
    RunSnoc(e1, Report(1, 0));
    OneFile();
    var e3 := StuckTick(e2, 0);
    var e4 := e3 + [Load(1)];
    RunSnoc(e3, Load(1));
    var e5 := e4 + [Examine(1, false, true)];
    RunSnoc(e4, Examine(1, false, true));
    var e6 := e5 + [Load(1)];
    RunSnoc(e5, Load(1));
    var e7 := e6 + [Conclude(1)];
    RunSnoc(e6, Conclude(1));
    var e8 := e7 + [Grow(0, [198], 50)];
    RunSnoc(e7, Grow(0, [198], 50));
    var e9 := e8 + [Report(0, 0)];
    RunSnoc(e8, Report(0, 0));
    assert [][0..] + [198] == [198] && [198][0..] == [198] && [198][1..] == [];
    events := StuckTick(e9, 1);
  }

  lemma OneFile()
    ensures SizeOf([198]) == 198 && SizeOf([]) == 0
    ensures [198][0..] == [198] && [] + [198] == [198] && [198][1..] == []
  {
    assert [198][1..] == [];
  }

  lemma RunStart()
    ensures Run(2, 210, 100, []) == Start(2) && Start(2).shards == [Shard([], 0, 0, FloorClear, Idle), Shard([], 0, 0, FloorClear, Idle)]
  {
  }
}
