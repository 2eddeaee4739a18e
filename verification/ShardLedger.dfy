/**
 Publish obligations are linear: each publish a local decision came to owe is
 acknowledged, abandoned, folded into another of its trace, refused at
 shutdown, or outstanding in exactly one place.
 */
module ShardLedger {
  import opened Types
  import opened DecidedSet
  import opened ShardModel
  import opened ShardQueue
  import opened ShardRun
  import opened ShardDeadlines
  import opened ShardDecisions

  function Parked(w: Worker, id: TraceId): (n: nat) {
    if id in w.pend && w.pend[id].need.publish then 1 else 0
  }

  /** What the worker holds or has written off of the publishes of `id`. */
  function Booked(w: Worker, id: TraceId): (n: nat) {
    Parked(w, id) + Owing(w.jobs, id) + w.abandoned[id] + w.merged[id]
  }

  function One(need: Need, id: TraceId, x: TraceId): (n: nat) {
    if need.publish && id == x then 1 else 0
  }

  lemma {:induction false} OwingAppend(a: seq<FlushJob>, b: seq<FlushJob>, id: TraceId)
    ensures Owing(a + b, id) == Owing(a, id) + Owing(b, id)
  {
    if a == [] {
      assert a + b == b;
    } else {
      assert (a + b)[1..] == a[1..] + b;
      OwingAppend(a[1..], b, id);
    }
  }

  lemma OwingOne(js: seq<FlushJob>, j: FlushJob, id: TraceId)
    ensures Owing(js + [j], id) == Owing(js, id) + One(j.need, j.id, id)
  {
    OwingAppend(js, [j], id);
    assert [j][1..] == [];
  }

  lemma {:induction false} OwingRetriesAppend(a: seq<RetryEvent>, b: seq<RetryEvent>, id: TraceId)
    ensures OwingRetries(a + b, id) == OwingRetries(a, id) + OwingRetries(b, id)
  {
    if a == [] {
      assert a + b == b;
    } else {
      assert (a + b)[1..] == a[1..] + b;
      OwingRetriesAppend(a[1..], b, id);
    }
  }

  lemma OwingRetriesOne(rs: seq<RetryEvent>, r: RetryEvent, id: TraceId)
    ensures OwingRetries(rs + [r], id) == OwingRetries(rs, id) + One(r.need, r.id, id)
  {
    OwingRetriesAppend(rs, [r], id);
    assert [r][1..] == [];
  }

  lemma OwingRetriesRemove(rs: seq<RetryEvent>, i: nat, id: TraceId)
    requires i < |rs|
    ensures OwingRetries(rs, id) == OwingRetries(rs[..i] + rs[i + 1..], id) + One(rs[i].need, rs[i].id, id)
  {
    assert rs == (rs[..i] + [rs[i]]) + rs[i + 1..];
    OwingRetriesAppend(rs[..i] + [rs[i]], rs[i + 1..], id);
    OwingRetriesOne(rs[..i], rs[i], id);
    OwingRetriesAppend(rs[..i], rs[i + 1..], id);
  }

  // --------------------------------------------------------- worker steps

  lemma ParkBooks(w: Worker, id: TraceId, reason: byte, need: Need, deadline: int, fallback: int, x: TraceId)
    ensures Booked(Park(w, id, reason, need, deadline, fallback), x) == Booked(w, x) + One(need, id, x)
    ensures Park(w, id, reason, need, deadline, fallback).merged[x] > w.merged[x] ==> Parked(Park(w, id, reason, need, deadline, fallback), x) == 1
  {
  }

  lemma DischargeBooks(w: Worker, id: TraceId, reason: byte, need: Need, deadline: int, a: Attempt, x: TraceId)
    requires !Try(w.store, id, need, a).SendFull? && !Try(w.store, id, need, a).CollectErr?
    ensures Booked(Discharge(w, id, reason, need, deadline, a), x) == Booked(w, x) + One(need, id, x)
    ensures Discharge(w, id, reason, need, deadline, a).merged == w.merged
  {
    OwingOne(w.jobs, FlushJob(id, reason, need, Readable(w.store, id, a.corrupt), deadline), x);
  }

  lemma CollectAndSendBooks(w: Worker, id: TraceId, reason: byte, need: Need, deadline: int, fallback: int, a: Attempt, x: TraceId)
    ensures var w' := CollectAndSend(w, id, reason, need, deadline, fallback, a);
            && Booked(w', x) == Booked(w, x) + One(need, id, x)
            && (w'.merged[x] > w.merged[x] ==> Parked(w', x) == 1)
  {
    hide Park, Discharge, Booked, Parked;
    ParkBooks(w, id, reason, need, deadline, fallback, x);
    var o := Try(w.store, id, need, a);
    if !o.SendFull? && !o.CollectErr? {
      DischargeBooks(w, id, reason, need, deadline, a, x);
    }
  }

  lemma ReplayBooks(w: Worker, window: int, a: Attempt, x: TraceId)
    requires w.queue != [] && !Gated(w, a)
    ensures Booked(Replay(w, window, a), x) == Booked(w, x)
    ensures Replay(w, window, a).merged == w.merged
  {
    var id := w.queue[0];
    if id in w.pend && w.pend[id].need != NO_NEED {
      var req, gone := w.pend[id], w.(queue := w.queue[1..], pend := w.pend - {id});
      assert Booked(w, x) == Booked(gone, x) + One(req.need, id, x);
      if Try(w.store, id, req.need, a).CollectErr? {
        ParkBooks(gone, id, req.reason, req.need, req.deadline, a.clock + window, x);
      } else {
        DischargeBooks(gone, id, req.reason, req.need, req.deadline, a, x);
      }
    }
  }

  /** An expired publish moves from parked to abandoned. */
  lemma SweepBooks(w: Worker, now: int, x: TraceId)
    ensures Booked(Sweep(w, now), x) == Booked(w, x)
    ensures Sweep(w, now).merged == w.merged
  {
    var overdue := set id | id in w.pend && Expired(w.pend[id], now);
    assert multiset(overdue)[x] == if x in overdue then 1 else 0;
  }

  ghost predicate SameBooks(w: Worker, x: TraceId, n: nat, merged: multiset<TraceId>) {
    Booked(w, x) == n && w.merged == merged
  }

  lemma TickBooks(w: Worker, now: int, window: int, expired: set<nat>, attempts: nat -> Attempt, x: TraceId)
    ensures Booked(Tick(w, now, window, expired, attempts), x) == Booked(w, x)
    ensures Tick(w, now, window, expired, attempts).merged == w.merged
  {
    hide Drain, Replay, Gated, Sweep;
    var aged := w.(store := Keeping(w.store, expired), dec := w.dec[ExpiredPrefix(w.dec, now)..]);
    SweepBooks(aged, now, x);
    var inv := (v: Worker) => SameBooks(v, x, Booked(w, x), w.merged);
    forall v: Worker, a: Attempt | v.queue != [] && !Gated(v, a) && inv(v)
      ensures inv(Replay(v, window, a))
    {
      ReplayBooks(v, window, a, x);
    }
    DrainKeeps(inv, Sweep(aged, now), |Sweep(aged, now).queue|, window, attempts);
  }

  lemma KeepBooks(w: Worker, id: TraceId, reason: byte, origin: Origin, at: int, now: int, window: int, a: Attempt, x: TraceId)
    ensures var w' := Keep(w, id, reason, origin, at, now, window, a);
            && Booked(w', x) - Booked(w, x) == w'.owed[x] - w.owed[x] >= 0
            && (w'.merged[x] > w.merged[x] ==> Parked(w', x) == 1)
  {
    hide CollectAndSend;
    if !Holds(w.dec, id) {
      var deadline := Clamp(at, now) + window;
      var decided := Decide(w, id, origin, deadline);
      CollectAndSendBooks(decided, id, reason, Need(origin.Local?, true), deadline, a.clock + window, a, x);
      CollectAndSendHistory(decided, id, reason, Need(origin.Local?, true), deadline, a.clock + window, a);
    }
  }

  lemma AppendBooks(w: Worker, n: nat, id: TraceId, appended: bool, room: bool, fallback: int, x: TraceId)
    ensures Booked(AppendFragment(w, n, id, appended, room, fallback), x) == Booked(w, x)
    ensures AppendFragment(w, n, id, appended, room, fallback).merged == w.merged
  {
    hide Holds;
    if appended {
      OwingOne(w.jobs, FlushJob(id, 0, NEED_FLUSH, [n], 0), x);
      ParkBooks(w.(store := w.store + [Stored(n, id)]), id, 0, NEED_FLUSH, 0, fallback, x);
    }
  }

  // ---------------------------------------------------------- system steps

  /** Publishes in the flusher's hands: all of the batch's until the bus has answered, then the failed ones. */
  function HeldOwing(s: System, id: TraceId): (n: nat) {
    if s.publishing || id in s.failed then Owing(s.held, id) else 0
  }

  /** The publishes of `id` still to be made. */
  function Outstanding(s: System, id: TraceId): (n: nat) {
    Parked(s.w, id) + Owing(s.w.jobs, id) + HeldOwing(s, id) + OwingRetries(s.retries, id)
  }

  /** Every publish owed for `id` is in exactly one account. */
  ghost predicate Balanced(s: System, id: TraceId) {
    && s.w.owed[id] == Booked(s.w, id) + HeldOwing(s, id) + OwingRetries(s.retries, id) + s.acked[id] + s.deduped[id] + s.refused[id]
    && (s.w.merged[id] + s.deduped[id] > 0 ==> s.w.owed[id] >= 2)
    && (!s.stopping ==> s.refused[id] == 0)
  }

  lemma {:induction false} OwingPositive(js: seq<FlushJob>, id: TraceId)
    ensures Owing(js, id) > 0 <==> id in PublishIds(js)
  {
    if js != [] {
      assert js == [js[0]] + js[1..];
      OwingPositive(js[1..], id);
      assert id in PublishIds(js) <==> (js[0].id == id && js[0].need.publish) || id in PublishIds(js[1..]);
    }
  }

  /** One bus call answers every publish of the batch: acknowledged once per trace, the rest of that trace's folded in. */
  lemma PublishBalanced(s: System, failed: set<TraceId>, id: TraceId)
    requires Balanced(s, id) && s.publishing
    ensures Balanced(Publish(s, failed), id)
  {
    OwingPositive(s.held, id);
    var ids := PublishIds(s.held);
    assert multiset(ids - failed)[id] == if id in ids - failed then 1 else 0;
  }

  /** A failed publish travels back whole; a refused consume travels back without its publish. */
  lemma HandleBalanced(s: System, c: Consumption, lands: bool, id: TraceId)
    requires Balanced(s, id) && s.held != [] && !s.publishing
    ensures Balanced(Handle(s, c, lands), id)
  {
    hide Booked, Owing, OwingRetries;
    var j := s.held[0];
    OwingHead(s.held, id);
    HandleLedger(s, c, lands);
    OwingRetriesOne(s.retries, RetryEvent(j.id, j.reason, j.need, j.deadline), id);
    OwingRetriesOne(s.retries, RetryEvent(j.id, j.reason, NEED_FLUSH, j.deadline), id);
  }

  lemma OwingHead(js: seq<FlushJob>, id: TraceId)
    requires js != []
    ensures Owing(js, id) == One(js[0].need, js[0].id, id) + Owing(js[1..], id)
  {
  }

  lemma GatherBalanced(s: System, window: int, k: nat, id: TraceId)
    requires Balanced(s, id)
    ensures Balanced(Step(s, window, Gather(k)), id)
  {
    hide Owing, OwingRetries;
    assert Owing([], id) == 0 by { OwingPositive([], id); }
    if s.held == [] && 0 < k <= |s.w.jobs| {
      OwingAppend(s.w.jobs[..k], s.w.jobs[k..], id);
      assert s.w.jobs == s.w.jobs[..k] + s.w.jobs[k..];
    }
  }

  lemma HandBackBalanced(s: System, window: int, i: nat, now: int, id: TraceId)
    requires Balanced(s, id)
    ensures Balanced(Step(s, window, HandBack(i, now)), id)
  {
    hide Park;
    if i < |s.retries| {
      var r := s.retries[i];
      OwingRetriesRemove(s.retries, i, id);
      ParkBooks(s.w, r.id, r.reason, r.need, r.deadline, now + window, id);
      ParkHistory(s.w, r.id, r.reason, r.need, r.deadline, now + window);
    }
  }

  lemma StepBalanced(s: System, window: int, e: Event, id: TraceId)
    requires Balanced(s, id)
    ensures Balanced(Step(s, window, e), id)
  {
    hide Park, Tick, Keep, AppendFragment, Handle, Publish, Holds, Owing, OwingRetries;
    match e
    case Fragment(x, appended, room, now) =>
      AppendBooks(s.w, s.nextFrag, x, appended, room, now + window, id);
      AppendHistory(s.w, s.nextFrag, x, appended, room, now + window);
    case KeepVerdict(x, reason, origin, at, now, a) => KeepBooks(s.w, x, reason, origin, at, now, window, a, id);
    case HandBack(i, now) => HandBackBalanced(s, window, i, now, id);
    case Ticked(now, expired, attempts) =>
      TickBooks(s.w, now, window, expired, attempts, id);
      TickHistory(s.w, now, window, expired, attempts);
    case Sacrificed(expired) =>
    case Gather(k) => GatherBalanced(s, window, k, id);
    case Published(failed) => if s.held != [] && s.publishing { PublishBalanced(s, failed, id); }
    case Handled(c, lands) => if s.held != [] && !s.publishing { HandleBalanced(s, c, lands, id); }
    case Stop =>
  }

  lemma {:induction false} RunBalanced(window: int, events: seq<Event>, id: TraceId)
    ensures Balanced(Run(window, events), id)
  {
    hide Step;
    if events != [] {
      hide Balanced;
      var m := |events| - 1;
      RunBalanced(window, events[..m], id);
      StepBalanced(Run(window, events[..m]), window, events[m], id);
    }
  }

  // -------------------------------------------------------------- theorems

  /**
   Over every run: acknowledged, abandoned and outstanding publishes of a trace
   never exceed the local keeps that decided it, and equal them when it was
   decided at most once and shutdown has not begun.
   */
  lemma PublishesAreLinear(window: int, events: seq<Event>, id: TraceId)
    ensures var s, decisions := Run(window, events), LocalDecisions(window, events, id);
            && s.acked[id] + s.w.abandoned[id] + Outstanding(s, id) <= decisions
            && (decisions <= 1 && !s.stopping ==> s.acked[id] + s.w.abandoned[id] + Outstanding(s, id) == decisions)
  {
    hide Run, LocalDecisions, Owing, OwingRetries;
    RunBalanced(window, events, id);
    KeepsAreCounted(window, events, id);
  }

  /** A duplicating, reordering bus cannot cause a rebroadcast: without a local decision there is never a publish to make. */
  lemma BusCannotRebroadcast(window: int, events: seq<Event>, id: TraceId)
    requires forall e :: e in events && e.KeepVerdict? && e.id == id ==> !e.origin.Local?
    ensures Run(window, events).acked[id] == 0 && Outstanding(Run(window, events), id) == 0
  {
    hide Run, Owing, OwingRetries;
    PublishesAreLinear(window, events, id);
    NoLocalDecisions(window, events, id);
  }

  lemma {:induction false} NoLocalDecisions(window: int, events: seq<Event>, id: TraceId)
    requires forall e :: e in events && e.KeepVerdict? && e.id == id ==> !e.origin.Local?
    ensures LocalDecisions(window, events, id) == 0
  {
    hide Run;
    if events != [] {
      NoLocalDecisions(window, events[..|events| - 1], id);
      assert events[|events| - 1] in events;
    }
  }
}
