/**
 The hand-off makes progress: no reachable state is a dead end, for a producer
 that finds a free buffer or for a Shutdown call that is given time.
 */
module HandoffProgress {
  import opened Handoff
  import opened HandoffProof
  import opened HandoffShutdown

  /** A step of work already begun: no new call, no new Shutdown, no deadline. */
  predicate Finishing(e: Event) {
    !e.Enter? && !e.TakeBuffer? && !e.Begin? && !e.TimeOut?
  }

  ghost predicate GoesOn(events: seq<Event>, more: seq<Event>) {
    && |events| <= |more| && more[..|events|] == events
    && forall i :: |events| <= i < |more| ==> Finishing(more[i])
  }

  lemma OneMore(shards: nat, events: seq<Event>, start: seq<Event>, e: Event)
    requires GoesOn(events, start) && Finishing(e)
    ensures GoesOn(events, start + [e])
    ensures Run(shards, start + [e]) == Step(Run(shards, start), e)
  {
    hide Step, Finishing;
    assert (start + [e])[..|start|] == start;
    assert (start + [e])[..|events|] == start[..|events|];
  }

  // --------------------------------------------------------- producer calls

  /** A call that finds a free buffer and intake on gets its event into the queue, behind all others, and returns true. */
  lemma CallSucceeds(shards: nat, events: seq<Event>, c: nat, k: nat)
    requires var s := Run(shards, events);
             c !in s.calls && k < |s.shards| && s.intake && s.shards[k].free != []
    ensures var s, s' := Run(shards, events), Run(shards, events + [Enter(c, k), Check(c), TakeBuffer(c), Fill(c), Send(c), Return(c)]);
            && s'.calls == s.calls[c := Call(k, Returned(true))] && s'.inflight == s.inflight
            && k < |s'.shards| && s'.shards[k].sends == s.shards[k].sends + [c]
            && |s'.shards[k].work| == |s.shards[k].work| + 1 && s'.shards[k].free == s.shards[k].free[1..]
  {
    hide Step, Run;
    var p1 := events + [Enter(c, k)];
    var p2, p3, p4, p5 := p1 + [Check(c)], p1 + [Check(c), TakeBuffer(c)], p1 + [Check(c), TakeBuffer(c), Fill(c)], p1 + [Check(c), TakeBuffer(c), Fill(c), Send(c)];
    var p6 := p5 + [Return(c)];
    assert p6 == events + [Enter(c, k), Check(c), TakeBuffer(c), Fill(c), Send(c), Return(c)];
    RunNext(shards, events, Enter(c, k));
    RunNext(shards, p1, Check(c));
    assert p2 + [TakeBuffer(c)] == p3;
    RunNext(shards, p2, TakeBuffer(c));
    assert p3 + [Fill(c)] == p4;
    RunNext(shards, p3, Fill(c));
    assert p4 + [Send(c)] == p5;
    RunNext(shards, p4, Send(c));
    RunNext(shards, p5, Return(c));
    HandoffNeverBlocks(shards, p4, c, k);
    FillSteps(Run(shards, events), c, k);
    SendSteps(Run(shards, p4), c);
  }

  lemma RunNext(shards: nat, events: seq<Event>, e: Event)
    ensures Run(shards, events + [e]) == Step(Run(shards, events), e)
  {
    assert (events + [e])[..|events|] == events;
  }

  /** The first four steps of a call leave it with its buffer filled, and the queue as it was. */
  lemma FillSteps(s: State, c: nat, k: nat)
    requires c !in s.calls && k < |s.shards| && s.intake && s.shards[k].free != []
    ensures var s4 := Step(Step(Step(Step(s, Enter(c, k)), Check(c)), TakeBuffer(c)), Fill(c));
            var b := s.shards[k].free[0];
            && s4.calls == s.calls[c := Call(k, Filled(b))] && s4.inflight == s.inflight + 1
            && s4.shards == s.shards[k := Write(TakeFree(s.shards[k], c), b, c)]
  {
    hide Write, TakeFree;
    var s1 := Step(s, Enter(c, k));
    assert s1.calls[c] == Call(k, Entered) && s1.shards == s.shards;
    var s2 := Step(s1, Check(c));
    assert s2.calls[c] == Call(k, Passed) && s2.shards == s.shards;
    var s3 := Step(s2, TakeBuffer(c));
    assert s3.calls[c] == Call(k, Holding(s.shards[k].free[0]));
  }

  lemma SendSteps(s: State, c: nat)
    requires At(s, c) && s.calls[c].pc.Filled? && |ShardOf(s, c).work| < QUEUE_DEPTH
    ensures var s', k := Step(Step(s, Send(c)), Return(c)), s.calls[c].shard;
            && s'.calls == s.calls[c := Call(k, Returned(true))] && s'.inflight == s.inflight - 1
            && s'.shards == s.shards[k := Push(s.shards[k], s.calls[c].pc.b, c)]
  {
    hide Push;
    var s1 := Step(s, Send(c));
    assert s1.calls[c] == Call(s.calls[c].shard, Sent);
  }

  // ---------------------------------------------------------- calls come back

  /** How many steps a call is from its return. */
  function Steps(pc: Pc): (n: nat) {
    match pc
    case Entered => 3
    case Passed => 2
    case Holding(_) => 3
    case Filled(_) => 2
    case Sent => 1
    case Refused => 1
    case Returned(_) => 0
  }

  /** The next step of a call under way: one that has its check behind it may give up for want of a buffer. */
  function NextStep(c: nat, pc: Pc): (e: Event)
    requires HasToken(pc)
    ensures Finishing(e)
  {
    match pc
    case Entered => Check(c)
    case Passed => Shed(c)
    case Holding(_) => Fill(c)
    case Filled(_) => Send(c)
    case Sent => Return(c)
    case Refused => Return(c)
  }

  /** The Shutdown calls, the signals and the workers' phases are as they were. */
  ghost predicate SameSide(s: State, t: State) {
    && t.shutters == s.shutters && t.once == s.once && |t.shards| == |s.shards|
    && forall k :: 0 <= k < |s.shards| ==> t.shards[k].stop == s.shards[k].stop && t.shards[k].phase == s.shards[k].phase
  }

  /** The next step of a call brings it nearer its return and touches no other call. */
  lemma CallStep(s: State, c: nat)
    requires At(s, c) && HasToken(s.calls[c].pc)
    requires s.calls[c].pc.Filled? ==> |ShardOf(s, c).work| < QUEUE_DEPTH
    ensures var s' := Step(s, NextStep(c, s.calls[c].pc));
            && c in s'.calls && s'.calls == s.calls[c := s'.calls[c]]
            && Steps(s'.calls[c].pc) < Steps(s.calls[c].pc) && SameSide(s, s')
  {
    hide Push, Write;
    ProduceFrame(s, NextStep(c, s.calls[c].pc));
  }

  lemma CallsPlaced(s: State, c: nat)
    requires Inv(s) && c in s.calls
    ensures At(s, c)
  {
    hide SendsOk, ShutdownOk, ShardsOk;
    assert CallOk(s.shards, c, s.calls[c]);
  }

  lemma {:induction false} CallReturns(shards: nat, events: seq<Event>, start: seq<Event>, c: nat) returns (more: seq<Event>)
    requires GoesOn(events, start) && c in Run(shards, start).calls
    ensures GoesOn(events, more)
    ensures var s, t := Run(shards, start), Run(shards, more);
            SameSide(s, t) && c in t.calls && !HasToken(t.calls[c].pc) && t.calls == s.calls[c := t.calls[c]]
    decreases Steps(Run(shards, start).calls[c].pc)
  {
    hide Run, Step, GoesOn, Inv, NextStep;
    more := start;
    var s := Run(shards, start);
    if HasToken(s.calls[c].pc) {
      var e := NextStep(c, s.calls[c].pc);
      RunKeepsInv(shards, start);
      CallsPlaced(s, c);
      HandoffNeverBlocks(shards, start, c, 0);
      CallStep(s, c);
      OneMore(shards, events, start, e);
      more := CallReturns(shards, events, start + [e], c);
    }
  }

  /** Every call under way can come back, and then no token is in flight. */
  lemma {:induction false} CallsReturn(shards: nat, events: seq<Event>, start: seq<Event>) returns (more: seq<Event>)
    requires GoesOn(events, start)
    ensures GoesOn(events, more) && SameSide(Run(shards, start), Run(shards, more)) && Run(shards, more).inflight == 0
    decreases |Tokens(Run(shards, start).calls)|
  {
    hide Run, GoesOn, Steps;
    more := start;
    var s := Run(shards, start);
    if Tokens(s.calls) != {} {
      var c :| c in Tokens(s.calls);
      more := CallReturns(shards, events, start, c);
      TokenReturned(s.calls, c, Run(shards, more).calls[c]);
      more := CallsReturn(shards, events, more);
    } else {
      RunKeepsInv(shards, start);
      NoneInFlight(s);
    }
  }

  lemma NoneInFlight(s: State)
    requires Inv(s) && Tokens(s.calls) == {}
    ensures s.inflight == 0
  {
    hide ShardsOk, HoldersOk, SendsOk;
  }

  // ---------------------------------------------------- signals are closed

  /** The caller inside the once closes every remaining signal and leaves it. */
  lemma {:induction false} ClosesAll(shards: nat, events: seq<Event>, start: seq<Event>, y: nat) returns (more: seq<Event>)
    requires GoesOn(events, start)
    requires var s := Run(shards, start); y in s.shutters && s.shutters[y].Closing?
    ensures GoesOn(events, more)
    ensures var s, t := Run(shards, start), Run(shards, more);
            t.once == Ran && t.shutters == s.shutters[y := Waiting(0)] && |t.shards| == |s.shards|
    decreases var s := Run(shards, start); if s.shutters[y].next < |s.shards| then |s.shards| - s.shutters[y].next else 0
  {
    hide Run, GoesOn;
    var s := Run(shards, start);
    var e := CloseNext(y);
    OneMore(shards, events, start, e);
    more := start + [e];
    if s.shutters[y].next < |s.shards| {
      more := ClosesAll(shards, events, more, y);
    }
  }

  /** With no token in flight, a Shutdown call that has not timed out gets to wait for the workers. */
  lemma GetsToWait(shards: nat, events: seq<Event>, start: seq<Event>, x: nat) returns (more: seq<Event>)
    requires GoesOn(events, start)
    requires var s := Run(shards, start); x in s.shutters && !s.shutters[x].TimedOut? && s.inflight == 0
    ensures GoesOn(events, more)
    ensures var t := Run(shards, more);
            t.once == Ran && x in t.shutters && (t.shutters[x].Waiting? || t.shutters[x].Finished?)
  {
    hide Run, GoesOn;
    more := start;
    var s := Run(shards, start);
    if s.shutters[x].Quiescing? {
      OneMore(shards, events, more, Quiesce(x));
      more := more + [Quiesce(x)];
    }
    if Run(shards, more).shutters[x].AtOnce? {
      more := EntersOnce(shards, events, more, x);
    }
    if Run(shards, more).shutters[x].Closing? {
      more := ClosesAll(shards, events, more, x);
    } else {
      RunKeepsInv(shards, more);
      WaitingMeansRan(Run(shards, more), x);
    }
  }

  lemma WaitingMeansRan(s: State, x: nat)
    requires Inv(s) && x in s.shutters && (s.shutters[x].Waiting? || s.shutters[x].Finished?)
    ensures s.once == Ran
  {
    hide ShardsOk, HoldersOk, SendsOk;
  }

  lemma RunningIsClosing(s: State)
    requires Inv(s) && s.once.Running?
    ensures s.once.x in s.shutters && s.shutters[s.once.x].Closing?
  {
    hide ShardsOk, HoldersOk, SendsOk;
  }

  /** A call at the once enters it, or passes it when the caller inside has left. */
  lemma EntersOnce(shards: nat, events: seq<Event>, start: seq<Event>, x: nat) returns (more: seq<Event>)
    requires GoesOn(events, start)
    requires var s := Run(shards, start); x in s.shutters && s.shutters[x].AtOnce?
    ensures GoesOn(events, more)
    ensures var t := Run(shards, more); x in t.shutters && (t.shutters[x].Closing? || t.shutters[x].Waiting?)
  {
    hide Run, GoesOn, Inv;
    more := start;
    var s := Run(shards, start);
    if s.once.Running? {
      RunKeepsInv(shards, start);
      RunningIsClosing(s);
      more := ClosesAll(shards, events, start, s.once.x);
    }
    OneMore(shards, events, more, RunOnce(x));
    more := more + [RunOnce(x)];
  }

  // ------------------------------------------------------- workers finish

  /** How much a worker still has to do. */
  function Left(sh: Shard): (n: nat) {
    2 * |sh.work| + (if sh.hand.Buffer? then 1 else 0)
    + (match sh.phase case Looping => 2 case Draining => 1 case Done => 0)
  }

  function WorkerStep(k: nat, sh: Shard): (e: Event)
    ensures Finishing(e)
  {
    if sh.hand.Buffer? then Recycle(k)
    else if sh.work != [] then Grab(k)
    else if sh.phase.Looping? then SeeStop(k)
    else Finish(k)
  }

  /** What the other parties see of a worker's step: no worker that was done is not, and nothing else moved. */
  ghost predicate OnlyWorked(s: State, t: State) {
    && t.shutters == s.shutters && t.once == s.once && |t.shards| == |s.shards|
    && forall k :: 0 <= k < |s.shards| ==> t.shards[k].stop == s.shards[k].stop && (s.shards[k].phase.Done? ==> t.shards[k].phase.Done?)
  }

  /** A worker that was told to stop takes its next step, with less left to do. */
  lemma WorkerSteps(s: State, k: nat)
    requires k < |s.shards| && !s.shards[k].phase.Done? && s.shards[k].stop
    requires s.shards[k].hand.Buffer? ==> |s.shards[k].free| < QUEUE_DEPTH && s.shards[k].hand.b < |s.shards[k].slots|
    ensures var t := Step(s, WorkerStep(k, s.shards[k]));
            OnlyWorked(s, t) && Left(t.shards[k]) < Left(s.shards[k])
  {
    WorkFrame(s, WorkerStep(k, s.shards[k]));
  }

  lemma HandInRange(s: State, k: nat)
    requires Inv(s) && k < |s.shards| && s.shards[k].hand.Buffer?
    ensures s.shards[k].hand.b < |s.shards[k].slots|
  {
    hide HoldersOk, SendsOk, ShutdownOk, OwnersOk;
    assert PipelineOk(s.shards[k]);
  }

  lemma {:induction false} WorkerFinishes(shards: nat, events: seq<Event>, start: seq<Event>, k: nat) returns (more: seq<Event>)
    requires GoesOn(events, start)
    requires var s := Run(shards, start); k < |s.shards| && s.shards[k].stop
    ensures GoesOn(events, more) && OnlyWorked(Run(shards, start), Run(shards, more))
    ensures Run(shards, more).shards[k].phase.Done?
    decreases Left(Run(shards, start).shards[k])
  {
    hide Run, Step, GoesOn, Inv, WorkerStep, Left;
    more := start;
    var s := Run(shards, start);
    if !s.shards[k].phase.Done? {
      var e := WorkerStep(k, s.shards[k]);
      RunKeepsInv(shards, start);
      if s.shards[k].hand.Buffer? {
        HandInRange(s, k);
        HandoffNeverBlocks(shards, start, 0, k);
      }
      WorkerSteps(s, k);
      OneMore(shards, events, start, e);
      more := WorkerFinishes(shards, events, start + [e], k);
    }
  }

  lemma AllStopped(s: State)
    requires Inv(s) && s.once == Ran
    ensures forall k :: 0 <= k < |s.shards| ==> s.shards[k].stop
  {
    hide ShardsOk, HoldersOk, SendsOk;
  }

  /** The Shutdown call sees the workers done one after the other, each having drained its queue. */
  lemma {:induction false} SeesAllDone(shards: nat, events: seq<Event>, start: seq<Event>, x: nat) returns (more: seq<Event>)
    requires GoesOn(events, start)
    requires var s := Run(shards, start); s.once == Ran && x in s.shutters && (s.shutters[x].Waiting? || s.shutters[x].Finished?)
    ensures GoesOn(events, more)
    ensures var t := Run(shards, more); x in t.shutters && t.shutters[x].Finished?
    decreases var s := Run(shards, start);
              if s.shutters[x].Finished? then 0 else if s.shutters[x].next < |s.shards| then |s.shards| - s.shutters[x].next + 1 else 1
  {
    hide Run, GoesOn, Inv;
    more := start;
    var s := Run(shards, start);
    if s.shutters[x].Waiting? {
      var k := s.shutters[x].next;
      if k < |s.shards| {
        RunKeepsInv(shards, start);
        AllStopped(s);
        more := WorkerFinishes(shards, events, start, k);
      }
      OneMore(shards, events, more, Await(x));
      more := more + [Await(x)];
      more := SeesAllDone(shards, events, more, x);
    }
  }

  /**
   Shutdown can always complete: from every reachable state, a Shutdown call that
   has not timed out is finished by steps of work already begun alone, whatever
   the other Shutdown calls did.
   */
  lemma ShutdownCanFinish(shards: nat, events: seq<Event>, x: nat) returns (more: seq<Event>)
    requires var s := Run(shards, events); x in s.shutters && !s.shutters[x].TimedOut?
    ensures GoesOn(events, more)
    ensures var t := Run(shards, more); x in t.shutters && t.shutters[x].Finished?
  {
    hide Run;
    more := CallsReturn(shards, events, events);
    hide GoesOn;
    more := GetsToWait(shards, events, more, x);
    more := SeesAllDone(shards, events, more, x);
  }
}
