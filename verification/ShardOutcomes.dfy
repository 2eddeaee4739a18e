/**
 How obligations end: which answer of the next consumer accepts, drops or hands
 back a fragment, which answer of the bus acknowledges a publish, and when a
 publish is given up. Over whole runs.
 */
module ShardOutcomes {
  import opened Types
  import opened DecidedSet
  import opened ShardModel
  import opened ShardQueue
  import opened ShardRun
  import opened ShardDeadlines
  import opened ShardDecisions
  import opened ShardDelivery
  import opened ShardLedger

  // --------------------------------------------------------- fragments

  /** The event offers fragment `n` to the next consumer: its job is up, and its publish has not failed. */
  ghost predicate Offers(s: System, e: Event, n: nat) {
    && e.Handled? && s.held != [] && !s.publishing
    && s.held[0].need.flush && n in s.held[0].frags
    && !(s.held[0].need.publish && s.held[0].id in s.failed)
  }

  /** Some fragment of the job decodes to at least one span. */
  ghost predicate HasSpan(j: FlushJob, c: Consumption) {
    exists n :: n in j.frags && n !in c.undecodable && n !in c.spanless
  }

  ghost predicate AcceptedAt(s: System, e: Event, n: nat) {
    Offers(s, e, n) && n !in e.c.undecodable && HasSpan(s.held[0], e.c) && e.c.verdict.Accepted?
  }

  ghost predicate DroppedAt(s: System, e: Event, n: nat) {
    Offers(s, e, n) && (n in e.c.undecodable || !HasSpan(s.held[0], e.c) || e.c.verdict.Permanent?)
  }

  /** Where consuming a job leaves one fragment number. */
  lemma ConsumeSettles(s: System, j: FlushJob, c: Consumption, lands: bool, n: nat)
    ensures var s' := Consume(s, j, c, lands);
            && (n in s'.accepted <==> n in s.accepted || (j.need.flush && n in j.frags && n !in c.undecodable && HasSpan(j, c) && c.verdict.Accepted?))
            && (n in s'.dropped <==> n in s.dropped || (j.need.flush && n in j.frags && (n in c.undecodable || !HasSpan(j, c) || c.verdict.Permanent?)))
            && s'.retries == s.retries + (if j.need.flush && HasSpan(j, c) && c.verdict.Retryable? && (lands || !s.stopping)
                                          then [RetryEvent(j.id, j.reason, NEED_FLUSH, j.deadline)] else [])
  {
    SpanlessIff(j, c);
  }

  lemma SpanlessIff(j: FlushJob, c: Consumption)
    ensures HasSpan(j, c) <==> !(Decodable(j.frags, c) <= c.spanless)
  {
    if HasSpan(j, c) {
      var n :| n in j.frags && n !in c.undecodable && n !in c.spanless;
      assert n in Decodable(j.frags, c);
    }
  }

  /** One step settles a fragment exactly under the verdict that says so. */
  lemma StepSettles(s: System, window: int, e: Event, n: nat)
    ensures n in Step(s, window, e).accepted <==> n in s.accepted || AcceptedAt(s, e, n)
    ensures n in Step(s, window, e).dropped <==> n in s.dropped || DroppedAt(s, e, n)
  {
    hide Tick, Keep, AppendFragment, Park, Publish, Consume, HasSpan;
    match e
    case Fragment(id, appended, room, now) =>
    case KeepVerdict(id, reason, origin, at, now, a) =>
    case HandBack(i, now) =>
    case Ticked(now, expired, attempts) =>
    case Sacrificed(expired) =>
    case Gather(k) =>
    case Published(failed) => PublishSettlesNone(s, failed);
    case Handled(c, lands) =>
      if s.held != [] {
        ConsumeSettles(s.(held := s.held[1..]), s.held[0], c, lands, n);
      }
    case Stop =>
  }

  lemma PublishSettlesNone(s: System, failed: set<TraceId>)
    ensures Publish(s, failed).accepted == s.accepted && Publish(s, failed).dropped == s.dropped
  {
  }

  ghost predicate AcceptedInRun(window: int, events: seq<Event>, n: nat) {
    exists i :: 0 <= i < |events| && AcceptedAt(Run(window, events[..i]), events[i], n)
  }

  ghost predicate DroppedInRun(window: int, events: seq<Event>, n: nat) {
    exists i :: 0 <= i < |events| && DroppedAt(Run(window, events[..i]), events[i], n)
  }

  lemma AcceptedNext(window: int, events: seq<Event>, n: nat)
    requires events != []
    ensures var m := |events| - 1;
            AcceptedInRun(window, events, n) <==> AcceptedInRun(window, events[..m], n) || AcceptedAt(Run(window, events[..m]), events[m], n)
  {
    hide Run, AcceptedAt;
    var m := |events| - 1;
    if i :| 0 <= i < m && AcceptedAt(Run(window, events[..m][..i]), events[..m][i], n) {
      assert events[..m][..i] == events[..i];
    }
    if i :| 0 <= i < m && AcceptedAt(Run(window, events[..i]), events[i], n) {
      assert events[..m][..i] == events[..i];
    }
  }

  lemma DroppedNext(window: int, events: seq<Event>, n: nat)
    requires events != []
    ensures var m := |events| - 1;
            DroppedInRun(window, events, n) <==> DroppedInRun(window, events[..m], n) || DroppedAt(Run(window, events[..m]), events[m], n)
  {
    hide Run, DroppedAt;
    var m := |events| - 1;
    if i :| 0 <= i < m && DroppedAt(Run(window, events[..m][..i]), events[..m][i], n) {
      assert events[..m][..i] == events[..i];
    }
    if i :| 0 <= i < m && DroppedAt(Run(window, events[..i]), events[i], n) {
      assert events[..m][..i] == events[..i];
    }
  }

  /** A fragment is accepted if and only if some answer of the run accepted its job and it decoded. */
  lemma {:induction false} AcceptedExactly(window: int, events: seq<Event>, n: nat)
    ensures n in Run(window, events).accepted <==> AcceptedInRun(window, events, n)
  {
    if events != [] {
      hide Step, AcceptedAt, AcceptedInRun;
      var m := |events| - 1;
      AcceptedExactly(window, events[..m], n);
      StepSettles(Run(window, events[..m]), window, events[m], n);
      AcceptedNext(window, events, n);
    }
  }

  /**
   A fragment is dropped if and only if some handled job called it undecodable,
   held no span, or was refused for good.
   */
  lemma {:induction false} DroppedExactly(window: int, events: seq<Event>, n: nat)
    ensures n in Run(window, events).dropped <==> DroppedInRun(window, events, n)
  {
    if events != [] {
      hide Step, DroppedAt, DroppedInRun;
      var m := |events| - 1;
      DroppedExactly(window, events[..m], n);
      StepSettles(Run(window, events[..m]), window, events[m], n);
      DroppedNext(window, events, n);
    }
  }

  /** Some attempt of the event that read to the end called `n` corrupt. */
  ghost predicate CalledCorrupt(e: Event, n: nat) {
    || (e.KeepVerdict? && !e.attempt.readError && n in e.attempt.corrupt)
    || (e.Ticked? && exists k :: !e.attempts(k).readError && n in e.attempts(k).corrupt)
  }

  lemma CollectAndSendLoses(w: Worker, id: TraceId, reason: byte, need: Need, deadline: int, fallback: int, a: Attempt, n: nat)
    requires n in CollectAndSend(w, id, reason, need, deadline, fallback, a).lost
    ensures n in w.lost || (!a.readError && n in a.corrupt)
  {
    hide Readable;
  }

  lemma ReplayLoses(w: Worker, window: int, a: Attempt, n: nat)
    requires w.queue != [] && n in Replay(w, window, a).lost
    ensures n in w.lost || (!a.readError && n in a.corrupt)
  {
    hide Readable;
  }

  lemma {:induction false} DrainLoses(w: Worker, k: nat, window: int, attempts: nat -> Attempt, n: nat)
    requires k <= |w.queue| && n in Drain(w, k, window, attempts).lost
    ensures n in w.lost || exists i :: !attempts(i).readError && n in attempts(i).corrupt
    decreases k
  {
    hide Replay, Gated;
    if k > 0 && !Gated(w, attempts(k)) {
      DrainLoses(Replay(w, window, attempts(k)), k - 1, window, attempts, n);
      if n in Replay(w, window, attempts(k)).lost {
        ReplayLoses(w, window, attempts(k), n);
      }
    }
  }

  lemma StepLoses(s: System, window: int, e: Event, n: nat)
    requires n in Step(s, window, e).w.lost
    ensures n in s.w.lost || CalledCorrupt(e, n)
  {
    hide Drain, CollectAndSend, Holds, Handle, Publish;
    match e
    case Fragment(id, appended, room, now) =>
    case KeepVerdict(id, reason, origin, at, now, a) =>
      if !Holds(s.w.dec, id) {
        var deadline := DeadlineOf(e, window);
        CollectAndSendLoses(Decide(s.w, id, origin, deadline), id, reason, Need(origin.Local?, true), deadline, a.clock + window, a, n);
      }
    case HandBack(i, now) =>
    case Ticked(now, expired, attempts) =>
      var swept := Sweep(s.w.(store := Keeping(s.w.store, expired), dec := s.w.dec[ExpiredPrefix(s.w.dec, now)..]), now);
      DrainLoses(swept, |swept.queue|, window, attempts, n);
    case Sacrificed(expired) =>
    case Gather(k) =>
    case Published(failed) => PublishFrame(s, failed);
    case Handled(c, lands) => if s.held != [] { HandleFrame(s, c, lands); }
    case Stop =>
  }

  /** A fragment is written off as corrupt only if an attempt of the run called it so. */
  lemma {:induction false} LostWasCorrupt(window: int, events: seq<Event>, n: nat)
    requires n in Run(window, events).w.lost
    ensures exists e :: e in events && CalledCorrupt(e, n)
  {
    hide Step, CalledCorrupt;
    if events != [] {
      var m := |events| - 1;
      StepLoses(Run(window, events[..m]), window, events[m], n);
      assert events[m] in events;
      if n in Run(window, events[..m]).w.lost {
        LostWasCorrupt(window, events[..m], n);
      }
    }
  }

  /** Nothing in the event gives a reason to write a fragment off. */
  ghost predicate Harmless(e: Event) {
    && (e.Handled? ==> e.c.undecodable == {} && e.c.spanless == {} && !e.c.verdict.Permanent?)
    && (e.KeepVerdict? ==> e.attempt.corrupt == {})
    && (e.Ticked? ==> forall k :: e.attempts(k).corrupt == {})
  }

  /** The shard, the flusher or a retry still answers for the fragment. */
  ghost predicate InHand(s: System, f: Stored) {
    Carried(s.w.jobs, f) || Carried(s.held, f) || OwesFlush(s.w, f.id) || Returning(s.retries, f.id)
  }

  lemma HarmlessDropsNone(s: System, e: Event, n: nat)
    requires Harmless(e)
    ensures !DroppedAt(s, e, n) && !CalledCorrupt(e, n)
  {
    if Offers(s, e, n) {
      SpanFound(s.held[0], e.c, n);
    }
  }

  lemma SpanFound(j: FlushJob, c: Consumption, n: nat)
    requires n in j.frags && n !in c.undecodable && n !in c.spanless
    ensures HasSpan(j, c)
  {
  }

  /**
   Where no fragment is corrupt, undecodable, empty or refused for good, retries
   lose nothing: in every such run before shutdown, each fragment on disk of a
   decided trace has been accepted or is still in hand.
   */
  lemma HarmlessRunsLoseNothing(window: int, events: seq<Event>, f: Stored)
    requires forall e :: e in events ==> Harmless(e)
    requires !Run(window, events).stopping
    requires f in Run(window, events).w.store && Holds(Run(window, events).w.dec, f.id)
    ensures f.n in Run(window, events).accepted || InHand(Run(window, events), f)
  {
    hide Run, Harmless, DroppedAt, CalledCorrupt, Carried, Holds, OwesFlush, Returning;
    AtLeastOnce(window, events);
    assert Accounted(Run(window, events), f);
    if f.n in Run(window, events).dropped {
      DroppedExactly(window, events, f.n);
      var i :| 0 <= i < |events| && DroppedAt(Run(window, events[..i]), events[i], f.n);
      HarmlessDropsNone(Run(window, events[..i]), events[i], f.n);
    }
    if f.n in Run(window, events).w.lost {
      LostWasCorrupt(window, events, f.n);
      var e :| e in events && CalledCorrupt(e, f.n);
      HarmlessDropsNone(INITIAL, e, f.n);
    }
  }

  // --------------------------------------------------------- publishes

  /** The bus acknowledges a publish of `id`: it is owed by the batch and not reported as failed. */
  ghost predicate AckedAt(s: System, e: Event, id: TraceId) {
    && e.Published? && s.publishing && id !in e.failed
    && exists j :: j in s.held && j.id == id && j.need.publish
  }

  /** The tick finds a publish of `id` parked past its deadline. */
  ghost predicate OverdueAt(s: System, e: Event, id: TraceId) {
    e.Ticked? && id in s.w.pend && s.w.pend[id].need.publish && s.w.pend[id].deadline <= e.now
  }

  lemma PublishAcks(s: System, failed: set<TraceId>, id: TraceId)
    ensures Publish(s, failed).acked[id]
         == s.acked[id] + if id !in failed && (exists j :: j in s.held && j.id == id && j.need.publish) then 1 else 0
    ensures Publish(s, failed).w == s.w
  {
    var acked := PublishIds(s.held) - failed;
    assert multiset(acked)[id] == if id in acked then 1 else 0;
  }

  lemma SweepAbandons(w: Worker, now: int, id: TraceId)
    ensures Sweep(w, now).abandoned[id]
         == w.abandoned[id] + if id in w.pend && w.pend[id].need.publish && w.pend[id].deadline <= now then 1 else 0
  {
    var overdue := set x | x in w.pend && Expired(w.pend[x], now);
    assert multiset(overdue)[id] == if id in overdue then 1 else 0;
  }

  ghost predicate SameAbandoned(a: Worker, b: Worker) { a.abandoned == b.abandoned }

  lemma DrainAbandonsNone(w: Worker, n: nat, window: int, attempts: nat -> Attempt)
    requires n <= |w.queue|
    ensures Drain(w, n, window, attempts).abandoned == w.abandoned
  {
    hide Drain, Replay, Gated;
    var inv := (v: Worker) => SameAbandoned(v, w);
    forall v: Worker, a: Attempt | v.queue != [] && !Gated(v, a) && inv(v)
      ensures inv(Replay(v, window, a))
    {
      ReplayAbandonsNone(v, window, a);
    }
    DrainKeeps(inv, w, n, window, attempts);
  }

  lemma ReplayAbandonsNone(w: Worker, window: int, a: Attempt)
    requires w.queue != []
    ensures Replay(w, window, a).abandoned == w.abandoned
  {
    hide Try;
  }

  /** One step: publishes are acknowledged by the bus alone and given up by an overdue tick alone, one at a time. */
  lemma StepPublishes(s: System, window: int, e: Event, id: TraceId)
    ensures Step(s, window, e).acked[id] == s.acked[id] + if AckedAt(s, e, id) then 1 else 0
    ensures Step(s, window, e).w.abandoned[id] == s.w.abandoned[id] + if OverdueAt(s, e, id) then 1 else 0
  {
    hide Drain, Holds, Handle, Publish, Try, Keeping;
    match e
    case Fragment(x, appended, room, now) =>
    case KeepVerdict(x, reason, origin, at, now, a) =>
    case HandBack(i, now) =>
    case Ticked(now, expired, attempts) =>
      var aged := s.w.(store := Keeping(s.w.store, expired), dec := s.w.dec[ExpiredPrefix(s.w.dec, now)..]);
      SweepAbandons(aged, now, id);
      DrainAbandonsNone(Sweep(aged, now), |Sweep(aged, now).queue|, window, attempts);
    case Sacrificed(expired) =>
    case Gather(k) =>
    case Published(failed) => PublishAcks(s, failed, id);
    case Handled(c, lands) => if s.held != [] { HandleLedger(s, c, lands); }
    case Stop =>
  }

  /** How many times the bus acknowledged a publish of `id`. */
  ghost function Acks(window: int, events: seq<Event>, id: TraceId): (n: nat) {
    if events == [] then 0
    else
      var m := |events| - 1;
      Acks(window, events[..m], id) + if AckedAt(Run(window, events[..m]), events[m], id) then 1 else 0
  }

  /** Acknowledged publishes are the bus's acknowledgements, no more and no less. */
  lemma {:induction false} AcksExactly(window: int, events: seq<Event>, id: TraceId)
    ensures Run(window, events).acked[id] == Acks(window, events, id)
  {
    if events != [] {
      hide Step, AckedAt;
      var m := |events| - 1;
      AcksExactly(window, events[..m], id);
      StepPublishes(Run(window, events[..m]), window, events[m], id);
    }
  }

  /** Event `k` is a tick at or after the deadline of an earlier local keep that decided `id`. */
  ghost predicate PastDeadline(window: int, events: seq<Event>, k: nat, id: TraceId) {
    && k < |events| && events[k].Ticked?
    && exists i: nat :: i < k && Fresh(window, events, i) && events[i].origin.Local? && events[i].id == id && events[k].now >= DeadlineOf(events[i], window)
  }

  /** A publish is given up only by a tick at or past the deadline its deciding keep issued. */
  lemma GivenUpOnlyLate(window: int, events: seq<Event>, k: nat, id: TraceId)
    requires k < |events| && forall e :: e in events ==> EventDatesItself(e, window)
    requires Run(window, events[..k + 1]).w.abandoned[id] > Run(window, events[..k]).w.abandoned[id]
    ensures PastDeadline(window, events, k, id)
  {
    hide Run, Step, EventDatesItself, Dated;
    var s := Run(window, events[..k]);
    RunPrefix(window, events, k);
    StepPublishes(s, window, events[k], id);
    RunDated(window, events[..k]);
    ParkedIsIssued(s.w, id);
    var i := IssuedByKeep(window, events[..k], id, s.w.pend[id].deadline);
    assert events[..k][..i] == events[..i];
    assert Fresh(window, events, i);
  }

  lemma ParkedIsIssued(w: Worker, id: TraceId)
    requires Dated(w) && id in w.pend && w.pend[id].need.publish
    ensures (id, w.pend[id].deadline) in w.issued
  {
  }

  lemma {:induction false} NeverGivenUpEarly(window: int, events: seq<Event>, m: nat, id: TraceId)
    requires m <= |events| && forall e :: e in events ==> EventDatesItself(e, window)
    requires forall k: nat :: !PastDeadline(window, events, k, id)
    ensures Run(window, events[..m]).w.abandoned[id] == 0
  {
    if m > 0 {
      hide Run, PastDeadline, EventDatesItself;
      NeverGivenUpEarly(window, events, m - 1, id);
      if Run(window, events[..m]).w.abandoned[id] > Run(window, events[..m - 1]).w.abandoned[id] {
        GivenUpOnlyLate(window, events, m - 1, id);
      }
    }
  }

  /**
   A publish stays owed until its deadline: while no tick is at or past the
   deadline of a local keep that decided the trace, and before shutdown, a trace
   decided once has its publish acknowledged or still outstanding.
   */
  lemma PublishKeptUntilDeadline(window: int, events: seq<Event>, id: TraceId)
    requires forall e :: e in events ==> EventDatesItself(e, window)
    requires forall k: nat :: !PastDeadline(window, events, k, id)
    requires !Run(window, events).stopping && LocalDecisions(window, events, id) <= 1
    ensures Acks(window, events, id) + Outstanding(Run(window, events), id) == LocalDecisions(window, events, id)
  {
    hide Run, PastDeadline, EventDatesItself, LocalDecisions, Outstanding, Acks;
    assert events[..|events|] == events;
    NeverGivenUpEarly(window, events, |events|, id);
    PublishesAreLinear(window, events, id);
    AcksExactly(window, events, id);
  }
}
