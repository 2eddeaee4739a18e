/** Shutdown conserves: what the protocol guarantees over every interleaving. */
module HandoffShutdown {
  import opened Handoff
  import opened HandoffProof

  // ------------------------------------------------------------------- sends

  predicate WasSent(pc: Pc) {
    pc == Sent || pc == Returned(true)
  }

  ghost predicate SentTo(calls: map<nat, Call>, c: nat, k: int) {
    c in calls && calls[c].shard == k && WasSent(calls[c].pc)
  }

  /** A shard's sends are exactly the calls that have sent to it, each once. */
  ghost predicate SendsMatch(sends: seq<nat>, calls: map<nat, Call>, k: int) {
    && NoDup(sends)
    && (forall c :: c in sends <==> SentTo(calls, c, k))
  }

  ghost predicate SendsOk(s: State) {
    forall k :: 0 <= k < |s.shards| ==> SendsMatch(s.shards[k].sends, s.calls, k)
  }

  lemma SameSends(s: State, s': State)
    requires SendsOk(s) && |s'.shards| == |s.shards|
    requires forall k :: 0 <= k < |s.shards| ==> s'.shards[k].sends == s.shards[k].sends
    requires forall c, k :: SentTo(s'.calls, c, k) <==> SentTo(s.calls, c, k)
    ensures SendsOk(s')
  {
    hide NoDup, SentTo;
    forall k | 0 <= k < |s'.shards|
      ensures SendsMatch(s'.shards[k].sends, s'.calls, k)
    {
      assert SendsMatch(s.shards[k].sends, s.calls, k);
    }
  }

  lemma SendSends(s: State, c: nat)
    requires SendsOk(s)
    ensures SendsOk(Produce(s, Send(c)))
  {
    if At(s, c) && s.calls[c].pc.Filled? && |ShardOf(s, c).work| < QUEUE_DEPTH {
      var s', m := Produce(s, Send(c)), s.calls[c].shard;
      forall k | 0 <= k < |s'.shards|
        ensures SendsMatch(s'.shards[k].sends, s'.calls, k)
      {
        assert SendsMatch(s.shards[k].sends, s.calls, k);
        if k == m {
          Joined(s.shards[k].sends, c);
        }
      }
    }
  }

  lemma ProduceSends(s: State, e: Event)
    requires SendsOk(s)
    ensures SendsOk(Produce(s, e))
  {
    hide SendsOk;
    if e.Send? {
      SendSends(s, e.c);
    } else {
      SameSends(s, Produce(s, e));
    }
  }

  lemma WorkSends(s: State, e: Event)
    requires SendsOk(s)
    ensures SendsOk(Work(s, e))
  {
    hide SendsOk, SentTo;
    SameSends(s, Work(s, e));
  }

  lemma ShutSends(s: State, e: Event)
    requires SendsOk(s)
    ensures SendsOk(Shut(s, e))
  {
    hide SendsOk, SentTo;
    SameSends(s, Shut(s, e));
  }

  // ------------------------------------------------------------------ tokens

  predicate HasToken(pc: Pc) { !pc.Returned? }

  /** Past the intake check and not yet back: the calls a drain must wait for. */
  predicate PastCheck(pc: Pc) {
    pc.Passed? || pc.Holding? || pc.Filled? || pc.Sent?
  }

  ghost function Tokens(calls: map<nat, Call>): (cs: set<nat>) {
    set c | c in calls && HasToken(calls[c].pc)
  }

  ghost predicate TokensOk(s: State) {
    s.inflight == |Tokens(s.calls)|
  }

  lemma TokenGained(calls: map<nat, Call>, c: nat, call: Call)
    requires c !in calls && HasToken(call.pc)
    ensures |Tokens(calls[c := call])| == |Tokens(calls)| + 1
  {
    assert Tokens(calls[c := call]) == Tokens(calls) + {c};
  }

  lemma TokenReturned(calls: map<nat, Call>, c: nat, call: Call)
    requires c in calls && HasToken(calls[c].pc) && !HasToken(call.pc)
    ensures |Tokens(calls[c := call])| == |Tokens(calls)| - 1
  {
    assert Tokens(calls) == Tokens(calls[c := call]) + {c};
  }

  lemma TokenKept(calls: map<nat, Call>, c: nat, call: Call)
    requires c in calls && HasToken(calls[c].pc) && HasToken(call.pc)
    ensures Tokens(calls[c := call]) == Tokens(calls)
  {
  }

  lemma ProduceTokens(s: State, e: Event)
    requires TokensOk(s)
    ensures TokensOk(Produce(s, e))
  {
    hide Tokens, Push, Write, TakeFree;
    var s' := Produce(s, e);
    if s' != s {
      if e.Enter? {
        TokenGained(s.calls, e.c, s'.calls[e.c]);
      } else if e.Return? {
        TokenReturned(s.calls, e.c, s'.calls[e.c]);
      } else {
        TokenKept(s.calls, e.c, s'.calls[e.c]);
      }
    }
  }

  // ------------------------------------------------------------------ phases

  /** Once some Shutdown has seen no token, intake is off and no call is past its check. */
  ghost predicate Quiet(s: State) {
    s.quiesced ==> !s.intake && forall c :: c in s.calls ==> !PastCheck(s.calls[c].pc)
  }

  ghost predicate ShuttersOk(s: State) {
    forall x :: x in s.shutters ==> !s.intake && (s.shutters[x].Quiescing? || s.shutters[x].TimedOut? || s.quiesced)
  }

  /** A worker leaves its loop only when told to stop, and is told only after the quiesce; a finished one has nothing left. */
  ghost predicate PhaseOk(sh: Shard, quiesced: bool) {
    && (sh.stop ==> quiesced)
    && (!sh.phase.Looping? ==> sh.stop)
    && (sh.phase.Done? ==> sh.work == [] && sh.hand.Nothing?)
  }

  ghost predicate PhasesOk(s: State) {
    forall k :: 0 <= k < |s.shards| ==> PhaseOk(s.shards[k], s.quiesced)
  }

  /** The stop signals are closed in order, once, by one caller; no one waits for workers before all are closed. */
  ghost predicate OnceOk(s: State) {
    && (forall x :: x in s.shutters && s.shutters[x].Closing? ==> s.once == Running(x))
    && (forall x :: x in s.shutters && (s.shutters[x].Waiting? || s.shutters[x].Finished?) ==> s.once == Ran)
    && (s.once == NotRun ==> forall k :: 0 <= k < |s.shards| ==> !s.shards[k].stop)
    && (s.once.Running? ==>
          && s.once.x in s.shutters && s.shutters[s.once.x].Closing? && s.shutters[s.once.x].next <= |s.shards|
          && forall k :: 0 <= k < |s.shards| ==> (s.shards[k].stop <==> k < s.shutters[s.once.x].next))
    && (s.once == Ran ==> forall k :: 0 <= k < |s.shards| ==> s.shards[k].stop)
  }

  /** A Shutdown call has seen the workers it has passed done. */
  ghost predicate AwaitOk(s: State) {
    forall x :: x in s.shutters ==>
      && (s.shutters[x].Waiting? ==> forall k :: 0 <= k < s.shutters[x].next && k < |s.shards| ==> s.shards[k].phase.Done?)
      && (s.shutters[x].Finished? ==> forall k :: 0 <= k < |s.shards| ==> s.shards[k].phase.Done?)
  }

  ghost predicate ShutdownOk(s: State) {
    TokensOk(s) && Quiet(s) && ShuttersOk(s) && PhasesOk(s) && OnceOk(s) && AwaitOk(s)
  }

  /** A call past its check while stop signals may be closed: impossible, so no send can follow a stop. */
  lemma QuietShard(s: State, c: nat)
    requires Quiet(s) && PhasesOk(s) && At(s, c) && PastCheck(s.calls[c].pc)
    ensures !ShardOf(s, c).stop && ShardOf(s, c).phase.Looping?
  {
    assert PhaseOk(ShardOf(s, c), s.quiesced);
  }

  lemma ProducePhases(s: State, e: Event)
    requires Quiet(s) && PhasesOk(s)
    ensures Quiet(Produce(s, e)) && PhasesOk(Produce(s, e))
  {
    var s' := Produce(s, e);
    if s' != s && !e.Enter? {
      var c := e.c;
      assert s'.calls == s.calls[c := s'.calls[c]];
      if PastCheck(s.calls[c].pc) {
        QuietShard(s, c);
      }
    }
  }

  lemma ProduceShutdown(s: State, e: Event)
    requires ShutdownOk(s)
    ensures ShutdownOk(Produce(s, e))
  {
    ProduceTokens(s, e);
    ProducePhases(s, e);
    assert OnceOk(Produce(s, e)) && ShuttersOk(Produce(s, e)) && AwaitOk(Produce(s, e)) by {
      ProduceFrame(s, e);
      hide TokensOk, Quiet, PhasesOk;
    }
  }

  lemma ProduceFrame(s: State, e: Event)
    ensures var s' := Produce(s, e);
            && s'.shutters == s.shutters && s'.once == s.once && s'.intake == s.intake && s'.quiesced == s.quiesced
            && |s'.shards| == |s.shards|
            && forall k :: 0 <= k < |s.shards| ==> s'.shards[k].stop == s.shards[k].stop && s'.shards[k].phase == s.shards[k].phase
  {
  }

  lemma WorkFrame(s: State, e: Event)
    ensures var s' := Work(s, e);
            && s' == s.(shards := s'.shards) && |s'.shards| == |s.shards|
            && forall k :: 0 <= k < |s.shards| ==>
                 && s'.shards[k].stop == s.shards[k].stop
                 && (s.shards[k].phase.Done? ==> s'.shards[k].phase.Done?)
  {
  }

  lemma WorkPhases(s: State, e: Event)
    requires PhasesOk(s)
    ensures PhasesOk(Work(s, e))
  {
    if Work(s, e) != s {
      assert PhaseOk(s.shards[e.k], s.quiesced);
    }
  }

  lemma WorkShutdown(s: State, e: Event)
    requires ShutdownOk(s)
    ensures ShutdownOk(Work(s, e))
  {
    WorkFrame(s, e);
    WorkPhases(s, e);
    hide PhasesOk, Work, Tokens;
  }

  /** No token in flight: every call is back, so none is past its check. */
  lemma NoTokens(s: State)
    requires TokensOk(s) && s.inflight == 0
    ensures forall c :: c in s.calls ==> !PastCheck(s.calls[c].pc)
  {
    assert Tokens(s.calls) == {};
    forall c | c in s.calls
      ensures PastCheck(s.calls[c].pc) ==> c in Tokens(s.calls)
    {
    }
  }

  lemma QuiesceShutdown(s: State, x: nat)
    requires ShutdownOk(s)
    ensures ShutdownOk(Shut(s, Quiesce(x)))
  {
    if Shut(s, Quiesce(x)) != s {
      NoTokens(s);
    }
  }

  lemma CloseShutdown(s: State, x: nat)
    requires ShutdownOk(s)
    ensures ShutdownOk(Shut(s, CloseNext(x)))
  {
    var s' := Shut(s, CloseNext(x));
    if s' != s {
      var k := s.shutters[x].next;
      if k < |s.shards| {
        assert PhaseOk(s.shards[k], s.quiesced);
      }
    }
  }

  lemma ShutShutdown(s: State, e: Event)
    requires ShutdownOk(s)
    ensures ShutdownOk(Shut(s, e))
  {
    hide Tokens, PhaseOk;
    match e
    case Quiesce(x) => QuiesceShutdown(s, x);
    case CloseNext(x) => CloseShutdown(s, x);
    case RunOnce(x) => OnceShutdown(s, x);
    case Await(x) => AwaitShutdown(s, x);
    case _ =>
  }

  lemma OnceShutdown(s: State, x: nat)
    requires ShutdownOk(s)
    ensures ShutdownOk(Shut(s, RunOnce(x)))
  {
    hide Tokens, PhaseOk;
  }

  lemma AwaitShutdown(s: State, x: nat)
    requires ShutdownOk(s)
    ensures ShutdownOk(Shut(s, Await(x)))
  {
    hide Tokens, PhaseOk;
  }

  // -------------------------------------------------------------- whole runs

  ghost predicate Inv(s: State) {
    ShardsOk(s) && HoldersOk(s) && SendsOk(s) && ShutdownOk(s)
  }

  lemma StepKeepsInv(s: State, e: Event)
    requires Inv(s)
    ensures Inv(Step(s, e))
  {
    hide ShardsOk, HoldersOk, SendsOk, ShutdownOk, Produce, Work, Shut;
    ProduceHolders(s, e);
    ProduceSends(s, e);
    ProduceShutdown(s, e);
    WorkStepHolders(s, e);
    WorkSends(s, e);
    WorkShutdown(s, e);
    ShutHolders(s, e);
    ShutSends(s, e);
    ShutShutdown(s, e);
  }

  lemma ShutHolders(s: State, e: Event)
    requires ShardsOk(s) && HoldersOk(s)
    ensures ShardsOk(Shut(s, e)) && HoldersOk(Shut(s, e))
  {
    if e.CloseNext? && Shut(s, e).shards != s.shards {
      var k := s.shutters[e.x].next;
      SignalOk(s.shards[k], Looping);
      WorkHolders(s, k, s.shards[k].(stop := true));
      SameHolders(SetShard(s, k, s.shards[k].(stop := true)), Shut(s, e));
    } else {
      SameHolders(s, Shut(s, e));
    }
  }

  lemma StartInv(shards: nat)
    ensures Inv(Start(shards))
  {
    hide OwnersOk, PipelineOk, NewShard;
    NewShardOk();
    NewShardIdle();
  }

  lemma NewShardIdle()
    ensures var sh := NewShard();
            !sh.stop && sh.phase.Looping? && sh.sends == [] && forall b :: 0 <= b < |sh.owner| ==> sh.owner[b] == InFree
  {
  }

  lemma {:induction false} RunKeepsInv(shards: nat, events: seq<Event>)
    ensures Inv(Run(shards, events))
  {
    hide Inv, Step;
    if events == [] {
      StartInv(shards);
    } else {
      RunKeepsInv(shards, events[..|events| - 1]);
      StepKeepsInv(Run(shards, events[..|events| - 1]), events[|events| - 1]);
    }
  }

  // ---------------------------------------------------------------- theorems

  /** A producer with a buffer always finds room in the queue, and a worker always finds room in the free ring. */
  lemma HandoffNeverBlocks(shards: nat, events: seq<Event>, c: nat, k: nat)
    ensures var s := Run(shards, events);
            && (At(s, c) && (s.calls[c].pc.Holding? || s.calls[c].pc.Filled?) ==> |ShardOf(s, c).work| < QUEUE_DEPTH)
            && (k < |s.shards| && s.shards[k].hand.Buffer? ==> |s.shards[k].free| < QUEUE_DEPTH)
  {
    hide Run, PipelineOk, SendsOk, ShutdownOk;
    RunKeepsInv(shards, events);
    var s := Run(shards, events);
    if At(s, c) && (s.calls[c].pc.Holding? || s.calls[c].pc.Filled?) {
      assert CallOk(s.shards, c, s.calls[c]);
      assert OwnersOk(ShardOf(s, c));
      HasRoom(ShardOf(s, c).work, s.calls[c].pc.b);
    }
    if k < |s.shards| && s.shards[k].hand.Buffer? {
      assert OwnersOk(s.shards[k]);
      HasRoom(s.shards[k].free, s.shards[k].hand.b);
    }
  }

  /** Once any stop signal is closed, no call on any shard is between its intake check and its return. */
  lemma NoSendAfterStop(shards: nat, events: seq<Event>, k: nat, c: nat)
    ensures var s := Run(shards, events);
            k < |s.shards| && s.shards[k].stop && c in s.calls ==> !PastCheck(s.calls[c].pc)
  {
    hide Run, ShardsOk, HoldersOk, SendsOk;
    RunKeepsInv(shards, events);
    var s := Run(shards, events);
    if k < |s.shards| && s.shards[k].stop {
      assert PhaseOk(s.shards[k], s.quiesced);
    }
  }

  /** A finished worker left nothing queued or in hand, and everything sent to it was handled, in order. */
  lemma DoneMeansDrained(shards: nat, events: seq<Event>, k: nat)
    ensures var s := Run(shards, events);
            k < |s.shards| && s.shards[k].phase.Done? ==>
              s.shards[k].work == [] && s.shards[k].hand.Nothing? && s.shards[k].handled == s.shards[k].sends
  {
    hide Run, HoldersOk, SendsOk, OwnersOk;
    RunKeepsInv(shards, events);
    var s := Run(shards, events);
    if k < |s.shards| && s.shards[k].phase.Done? {
      assert PhaseOk(s.shards[k], s.quiesced);
      assert PipelineOk(s.shards[k]);
    }
  }

  /** At every moment: a shard handles its events in the order they were sent, each at most once, and only events that were sent. */
  lemma HandledAtMostOnce(shards: nat, events: seq<Event>, k: nat)
    ensures var s := Run(shards, events);
            k < |s.shards| ==>
              && s.shards[k].handled <= s.shards[k].sends
              && NoDup(s.shards[k].handled)
              && (forall c :: c in s.shards[k].handled ==> SentTo(s.calls, c, k))
  {
    hide Run, HoldersOk, OwnersOk, SentTo;
    RunKeepsInv(shards, events);
    var s := Run(shards, events);
    if k < |s.shards| {
      var sh := s.shards[k];
      assert PipelineOk(sh) && SendsMatch(sh.sends, s.calls, k);
      assert forall i :: 0 <= i < |sh.handled| ==> sh.handled[i] == sh.sends[i];
    }
  }

  /**
   Shutdown conservation: in every interleaving, once some Shutdown call has
   returned, each shard has handled exactly the events whose calls returned
   true, each exactly once, and no call is still under way past its check.
   */
  lemma ShutdownConserves(shards: nat, events: seq<Event>, x: nat, k: nat)
    requires x in Run(shards, events).shutters && Run(shards, events).shutters[x].Finished?
    requires k < |Run(shards, events).shards|
    ensures var s := Run(shards, events);
            && NoDup(s.shards[k].handled)
            && (forall c :: c in s.shards[k].handled <==> c in s.calls && s.calls[c] == Call(k, Returned(true)))
            && s.shards[k].work == [] && s.shards[k].phase.Done?
  {
    hide Run, HoldersOk, ShardsOk, OwnersOk;
    RunKeepsInv(shards, events);
    DoneMeansDrained(shards, events, k);
    var s := Run(shards, events);
    assert SendsMatch(s.shards[k].sends, s.calls, k);
    forall c
      ensures c in s.shards[k].sends <==> c in s.calls && s.calls[c] == Call(k, Returned(true))
    {
      assert c in s.shards[k].sends <==> SentTo(s.calls, c, k);
    }
  }

  /** The stop signals are closed once: no interleaving of Shutdown calls closes one twice. */
  lemma StopClosedOnce(shards: nat, events: seq<Event>, x: nat)
    ensures var s := Run(shards, events);
            x in s.shutters && s.shutters[x].Closing? && s.shutters[x].next < |s.shards| ==> !s.shards[s.shutters[x].next].stop
  {
    hide Run, ShardsOk, HoldersOk, SendsOk;
    RunKeepsInv(shards, events);
  }

  /** The ring conserves its buffers: each is free, queued, in the worker's hand, or held by exactly one call. */
  lemma BuffersConserved(shards: nat, events: seq<Event>, k: nat, b: nat)
    requires k < |Run(shards, events).shards| && b < QUEUE_DEPTH
    ensures var s := Run(shards, events);
            var sh := s.shards[k];
            && (b in sh.free || b in sh.work || sh.hand == Buffer(b) || exists c :: c in s.calls && s.calls[c].shard == k && Owns(s.calls[c].pc, b))
            && (b in sh.free ==> b !in sh.work && sh.hand != Buffer(b))
            && (b in sh.work ==> sh.hand != Buffer(b))
            && (forall c :: c in s.calls && s.calls[c].shard == k && Owns(s.calls[c].pc, b) ==>
                  && b !in sh.free && b !in sh.work && sh.hand != Buffer(b)
                  && forall d :: d in s.calls && s.calls[d].shard == k && Owns(s.calls[d].pc, b) ==> d == c)
  {
    hide Run, PipelineOk, SendsOk, ShutdownOk;
    RunKeepsInv(shards, events);
    var s := Run(shards, events);
    var sh := s.shards[k];
    assert OwnersOk(sh) && BufferOk(s.calls, k, b, sh.owner[b]);
    forall c | c in s.calls && s.calls[c].shard == k && Owns(s.calls[c].pc, b)
      ensures sh.owner[b] == By(c)
    {
      assert CallOk(s.shards, c, s.calls[c]);
    }
  }
}
