/**
 Nothing gets stuck: from every state a run can reach, kind answers from disk,
 bus and consumer settle every obligation.
 */
module ShardSettles {
  import opened Types
  import opened DecidedSet
  import opened ShardModel
  import opened ShardQueue
  import opened ShardRun
  import opened ShardDeadlines
  import opened ShardDecisions
  import opened ShardDelivery
  import opened ShardLedger
  import opened ShardOutcomes
  import opened ShardProgress

  /** Everything decodes and the next consumer takes it. */
  const TAKEN := Consumption({}, {}, Accepted)

  /** An event that brings no new work, and in which disk, bus and consumer do as asked. */
  ghost predicate Kind(e: Event, now: int) {
    match e
    case HandBack(_, t) => t == now
    case Ticked(t, expired, attempts) => t == now && expired == {} && Unhindered(attempts) && forall k :: attempts(k).corrupt == {}
    case Gather(_) => true
    case Published(failed) => failed == {}
    case Handled(c, lands) => c == TAKEN && lands
    case _ => false
  }

  /** The longer run goes on from the shorter with kind events alone. */
  ghost predicate GoesOn(events: seq<Event>, more: seq<Event>, now: int) {
    && |events| <= |more| && more[..|events|] == events
    && forall k :: |events| <= k < |more| ==> Kind(more[k], now)
  }

  lemma OneMore(window: int, events: seq<Event>, more: seq<Event>, e: Event, now: int)
    requires GoesOn(events, more, now) && Kind(e, now)
    ensures GoesOn(events, more + [e], now)
    ensures Run(window, more + [e]) == Step(Run(window, more), window, e)
  {
    hide Kind, Step;
    assert (more + [e])[..|more|] == more;
    assert (more + [e])[..|events|] == more[..|events|];
  }

  /** A batch whose publishes were answered is worked off, one job per step. */
  lemma {:induction false} WorkOff(window: int, events: seq<Event>, start: seq<Event>, now: int) returns (more: seq<Event>)
    requires GoesOn(events, start, now)
    requires var s := Run(window, start); s.held == [] || !s.publishing
    ensures GoesOn(events, more, now)
    ensures var s, t := Run(window, start), Run(window, more);
            t.held == [] && t.w == s.w && (s.failed == {} ==> t.retries == s.retries)
    decreases |Run(window, start).held|
  {
    hide Run, Handle, GoesOn;
    more := start;
    var s := Run(window, start);
    if s.held != [] {
      var e := Handled(TAKEN, true);
      OneMore(window, events, start, e, now);
      HandleLedger(s, TAKEN, true);
      if s.failed == {} {
        TakenIsNotReturned(s, true);
      }
      more := WorkOff(window, events, start + [e], now);
    }
  }

  lemma TakenIsNotReturned(s: System, lands: bool)
    requires s.held != [] && s.failed == {}
    ensures Handle(s, TAKEN, lands).retries == s.retries
  {
    hide Consume;
    ConsumeSettles(s.(held := s.held[1..]), s.held[0], TAKEN, lands, 0);
  }

  /** The flusher finishes the batch it holds. */
  lemma FinishBatch(window: int, events: seq<Event>, start: seq<Event>, now: int) returns (more: seq<Event>)
    requires GoesOn(events, start, now)
    ensures GoesOn(events, more, now)
    ensures var s, t := Run(window, start), Run(window, more);
            t.held == [] && t.w == s.w && (s.publishing || s.held == [] ==> t.retries == s.retries)
  {
    hide Run, GoesOn, Publish;
    more := start;
    var s := Run(window, start);
    if s.held != [] {
      if s.publishing {
        var e := Published({});
        OneMore(window, events, start, e, now);
        NoneFailed(s);
        more := start + [e];
      }
      more := WorkOff(window, events, more, now);
    }
  }

  lemma NoneFailed(s: System)
    ensures var t := Publish(s, {}); t.w == s.w && t.held == s.held && !t.publishing && t.failed == {} && t.retries == s.retries
  {
  }

  /** Everything on its way back is parked. */
  lemma {:induction false} ParkRetries(window: int, events: seq<Event>, start: seq<Event>, now: int) returns (more: seq<Event>)
    requires GoesOn(events, start, now) && Run(window, start).held == []
    ensures GoesOn(events, more, now)
    ensures var t := Run(window, more); t.held == [] && t.retries == []
    decreases |Run(window, start).retries|
  {
    hide Run, Park, GoesOn;
    more := start;
    var s := Run(window, start);
    if s.retries != [] {
      var e := HandBack(0, now);
      OneMore(window, events, start, e, now);
      more := ParkRetries(window, events, start + [e], now);
    }
  }

  /** A tick with room sends what is parked. */
  lemma SendParked(window: int, events: seq<Event>, start: seq<Event>, now: int) returns (more: seq<Event>)
    requires GoesOn(events, start, now)
    ensures GoesOn(events, more, now)
    ensures var s, t := Run(window, start), Run(window, more);
            t.w.pend == map[] && t.w.queue == [] && t.held == s.held && t.retries == s.retries
  {
    hide Run, Tick, GoesOn, Tidy;
    var attempts := (k: nat) => Attempt(false, 0, {}, true, now);
    var e := Ticked(now, {}, attempts);
    OneMore(window, events, start, e, now);
    RunTidy(window, start);
    UnhinderedTickEmptiesTheLine(Run(window, start).w, now, window, {}, attempts);
    more := start + [e];
  }

  /** The flusher takes up everything in the channel. */
  lemma TakeAll(window: int, events: seq<Event>, start: seq<Event>, now: int) returns (more: seq<Event>)
    requires GoesOn(events, start, now) && Run(window, start).held == []
    ensures GoesOn(events, more, now)
    ensures var s, t := Run(window, start), Run(window, more);
            && t.w == s.w.(jobs := []) && t.retries == s.retries
            && (t.held == [] || t.publishing)
  {
    hide Run, GoesOn;
    more := start;
    var s := Run(window, start);
    if s.w.jobs != [] {
      var e := Gather(|s.w.jobs|);
      OneMore(window, events, start, e, now);
      more := start + [e];
    }
  }

  /** Nothing is parked, in the channel, with the flusher or on its way back. */
  ghost predicate Quiet(s: System) {
    s.w.pend == map[] && s.w.queue == [] && s.w.jobs == [] && s.held == [] && s.retries == []
  }

  /** From every reachable state, kind events alone lead to one in which no work is left. */
  lemma CanSettle(window: int, events: seq<Event>, now: int) returns (more: seq<Event>)
    ensures GoesOn(events, more, now) && Quiet(Run(window, more))
  {
    hide Run;
    more := FinishBatch(window, events, events, now);
    hide GoesOn;
    more := ParkRetries(window, events, more, now);
    more := SendParked(window, events, more, now);
    more := TakeAll(window, events, more, now);
    more := FinishBatch(window, events, more, now);
  }

  // ------------------------------------------------- what is settled then

  lemma KindIsHarmless(e: Event, now: int)
    requires Kind(e, now)
    ensures Harmless(e) && !e.KeepVerdict? && !e.Stop?
  {
  }

  lemma {:induction false} KindWritesNothingOff(window: int, events: seq<Event>, more: seq<Event>, now: int)
    requires GoesOn(events, more, now)
    ensures var s, t := Run(window, events), Run(window, more);
            && t.dropped <= s.dropped && t.w.lost <= s.w.lost && t.stopping == s.stopping
    decreases |more|
  {
    hide Step, Kind;
    if |more| == |events| {
      assert more == events;
    } else {
      hide Harmless, DroppedAt, CalledCorrupt;
      var m := |more| - 1;
      var s := Run(window, more[..m]);
      assert more[..m][..|events|] == events;
      KindWritesNothingOff(window, events, more[..m], now);
      KindIsHarmless(more[m], now);
      forall n | n in Step(s, window, more[m]).dropped
        ensures n in s.dropped
      {
        StepSettles(s, window, more[m], n);
        HarmlessDropsNone(s, more[m], n);
      }
      forall n | n in Step(s, window, more[m]).w.lost
        ensures n in s.w.lost
      {
        StepLoses(s, window, more[m], n);
        HarmlessDropsNone(s, more[m], n);
      }
      OnlyStopStops(s, window, more[m]);
    }
  }

  lemma OnlyStopStops(s: System, window: int, e: Event)
    ensures Step(s, window, e).stopping == (s.stopping || e.Stop?)
  {
    hide Tick, Keep, AppendFragment, Park, Publish, Handle;
    if e.Handled? && s.held != [] {
      HandleFrame(s, e.c, e.lands);
    }
    if e.Published? {
      PublishOnly(s, e.failed);
    }
  }

  lemma PublishOnly(s: System, failed: set<TraceId>)
    ensures Publish(s, failed).stopping == s.stopping
  {
  }

  /** When no work is left, every fragment on disk of a decided trace has been accepted or had been written off. */
  lemma SettledFragments(window: int, events: seq<Event>, more: seq<Event>, now: int, f: Stored)
    requires GoesOn(events, more, now) && Quiet(Run(window, more)) && !Run(window, events).stopping
    requires f in Run(window, more).w.store && Holds(Run(window, more).w.dec, f.id)
    ensures f.n in Run(window, more).accepted || f.n in Run(window, events).dropped || f.n in Run(window, events).w.lost
  {
    hide Run, GoesOn, Holds;
    KindWritesNothingOff(window, events, more, now);
    AtLeastOnce(window, more);
    assert Accounted(Run(window, more), f);
  }

  /** When no work is left, every publish owed was acknowledged, given up at its deadline, folded into another, or refused at shutdown. */
  lemma SettledPublishes(window: int, events: seq<Event>, id: TraceId)
    requires Quiet(Run(window, events))
    ensures var s := Run(window, events);
            && Outstanding(s, id) == 0
            && LocalDecisions(window, events, id) == s.acked[id] + s.w.abandoned[id] + s.w.merged[id] + s.deduped[id] + s.refused[id]
  {
    hide Run, LocalDecisions;
    RunBalanced(window, events, id);
    KeepsAreCounted(window, events, id);
  }

  lemma KindDecidesNothing(window: int, events: seq<Event>, more: seq<Event>, now: int, i: nat)
    requires GoesOn(events, more, now) && Fresh(window, more, i)
    ensures i < |events| && events[i] == more[i] && Fresh(window, events, i)
  {
    hide Run, Holds;
    if i >= |events| {
      KindIsHarmless(more[i], now);
    } else {
      assert more[..i] == more[..|events|][..i];
    }
  }

  /**
   A verdict reaches the bus: a trace that one local keep decided, in a run before
   shutdown without a tick at or past that keep's deadline, is acknowledged
   exactly once when the run goes on kindly, before that deadline, until no work is left.
   */
  lemma VerdictIsBroadcast(window: int, events: seq<Event>, more: seq<Event>, now: int, id: TraceId)
    requires GoesOn(events, more, now) && Quiet(Run(window, more)) && !Run(window, events).stopping
    requires forall e :: e in events ==> EventDatesItself(e, window)
    requires forall k: nat :: !PastDeadline(window, events, k, id)
    requires forall i: nat :: Fresh(window, events, i) && events[i].origin.Local? && events[i].id == id ==> now < DeadlineOf(events[i], window)
    requires LocalDecisions(window, more, id) == 1
    ensures Run(window, more).acked[id] == 1
  {
    hide Run, GoesOn, LocalDecisions, Fresh, DeadlineOf, Acks, Outstanding;
    KindWritesNothingOff(window, events, more, now);
    forall k: nat
      ensures !PastDeadline(window, more, k, id)
    {
      NotPast(window, events, more, now, id, k);
    }
    forall e | e in more
      ensures EventDatesItself(e, window)
    {
      KindDates(window, events, more, now, e);
    }
    SettledPublishes(window, more, id);
    PublishKeptUntilDeadline(window, more, id);
    AcksExactly(window, more, id);
  }

  lemma KindDates(window: int, events: seq<Event>, more: seq<Event>, now: int, e: Event)
    requires GoesOn(events, more, now) && e in more
    requires forall x :: x in events ==> EventDatesItself(x, window)
    ensures EventDatesItself(e, window)
  {
    var k :| 0 <= k < |more| && more[k] == e;
    if k < |events| {
      assert events[k] == more[k];
    }
  }

  lemma NotPast(window: int, events: seq<Event>, more: seq<Event>, now: int, id: TraceId, k: nat)
    requires GoesOn(events, more, now)
    requires !PastDeadline(window, events, k, id)
    requires forall i: nat :: Fresh(window, events, i) && events[i].origin.Local? && events[i].id == id ==> now < DeadlineOf(events[i], window)
    ensures !PastDeadline(window, more, k, id)
  {
    hide Holds, DeadlineOf, Run;
    assert k < |events| ==> events[k] == more[k];
    if PastDeadline(window, more, k, id) {
      var i: nat :| i < k && Fresh(window, more, i) && more[i].origin.Local? && more[i].id == id && more[k].now >= DeadlineOf(more[i], window);
      KindDecidesNothing(window, events, more, now, i);
    }
  }
}
