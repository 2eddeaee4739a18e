/**
 Publish deadlines: whatever number of park, drain and retry cycles an intent
 passes through, its deadline is the one its deciding keep issued.
 */
module ShardDeadlines {
  import opened Types
  import opened DecidedSet
  import opened ShardModel
  import opened ShardQueue
  import opened ShardRun

  /** A deadline is held exactly while a publish is owed, and a keep of this trace issued it. */
  ghost predicate DatedReq(req: PendReq, id: TraceId, issued: set<(TraceId, int)>) {
    && (req.deadline != 0 <==> req.need.publish)
    && (req.need.publish ==> (id, req.deadline) in issued)
  }

  ghost predicate DatedJob(j: FlushJob, issued: set<(TraceId, int)>) {
    j.need.publish ==> (j.id, j.deadline) in issued
  }

  ghost predicate DatedRetry(r: RetryEvent, issued: set<(TraceId, int)>) {
    r.need.publish ==> (r.id, r.deadline) in issued
  }

  ghost predicate Dated(w: Worker) {
    && (forall p :: p in w.issued ==> p.1 != 0)
    && (forall id :: id in w.pend ==> DatedReq(w.pend[id], id, w.issued))
    && (forall j :: j in w.jobs ==> DatedJob(j, w.issued))
  }

  /** No parked publish is at or past its deadline. */
  ghost predicate NoneOverdue(w: Worker, now: int) {
    forall id :: id in w.pend && w.pend[id].need.publish ==> now < w.pend[id].deadline
  }

  lemma ParkDated(w: Worker, id: TraceId, reason: byte, need: Need, deadline: int, fallback: int)
    requires Dated(w) && (need.publish ==> (id, deadline) in w.issued)
    ensures Dated(Park(w, id, reason, need, deadline, fallback))
  {
    assert need.publish ==> (id, deadline).1 != 0;
  }

  lemma DischargeDated(w: Worker, id: TraceId, reason: byte, need: Need, deadline: int, a: Attempt)
    requires Dated(w) && (need.publish ==> (id, deadline) in w.issued)
    ensures Dated(Discharge(w, id, reason, need, deadline, a))
  {
  }

  /** A re-parked intent keeps its deadline, so nothing falls overdue during a pass. */
  lemma ReplayDated(w: Worker, window: int, a: Attempt, now: int)
    requires Tidy(w) && Dated(w) && NoneOverdue(w, now) && w.queue != []
    ensures Dated(Replay(w, window, a)) && NoneOverdue(Replay(w, window, a), now)
  {
    hide Try;
    TidyHead(w);
    var id := w.queue[0];
    var req, gone := w.pend[id], w.(queue := w.queue[1..], pend := w.pend - {id});
    assert Dated(gone) && NoneOverdue(gone, now);
    ParkDated(gone, id, req.reason, req.need, req.deadline, a.clock + window);
    DischargeDated(gone, id, req.reason, req.need, req.deadline, a);
  }

  lemma TidyHead(w: Worker)
    requires Tidy(w) && w.queue != []
    ensures w.queue[0] in w.pend && w.pend[w.queue[0]].need.flush
  {
    assert w.queue[0] in w.queue;
  }

  /** A publish re-parked without a deadline gets one from a clock that has not run back. */
  lemma ReplayNotOverdue(w: Worker, window: int, a: Attempt, now: int)
    requires NoneOverdue(w, now) && w.queue != [] && now < a.clock + window
    ensures NoneOverdue(Replay(w, window, a), now)
  {
    hide Try;
  }

  lemma {:induction false} DrainNotOverdue(w: Worker, n: nat, window: int, attempts: nat -> Attempt, now: int)
    requires NoneOverdue(w, now) && n <= |w.queue|
    requires forall k :: now < attempts(k).clock + window
    ensures NoneOverdue(Drain(w, n, window, attempts), now)
    decreases n
  {
    hide NoneOverdue, Replay, Gated;
    if n > 0 && !Gated(w, attempts(n)) {
      ReplayNotOverdue(w, window, attempts(n), now);
      DrainNotOverdue(Replay(w, window, attempts(n)), n - 1, window, attempts, now);
    }
  }

  lemma SweepNotOverdue(w: Worker, now: int)
    ensures NoneOverdue(Sweep(w, now), now)
  {
  }

  /** Whatever deadlines intents carry: after a tick at `now` no parked publish is due at or before `now`. */
  lemma TickNotOverdue(w: Worker, now: int, window: int, expired: set<nat>, attempts: nat -> Attempt)
    requires forall k :: now < attempts(k).clock + window
    ensures NoneOverdue(Tick(w, now, window, expired, attempts), now)
  {
    hide Sweep, Drain, NoneOverdue;
    var aged := w.(store := Keeping(w.store, expired), dec := w.dec[ExpiredPrefix(w.dec, now)..]);
    SweepNotOverdue(aged, now);
    DrainNotOverdue(Sweep(aged, now), |Sweep(aged, now).queue|, window, attempts, now);
  }

  lemma SweepDated(w: Worker, now: int)
    requires Dated(w)
    ensures Dated(Sweep(w, now)) && NoneOverdue(Sweep(w, now), now)
  {
  }

  lemma DrainDated(w: Worker, n: nat, window: int, attempts: nat -> Attempt, now: int)
    requires Tidy(w) && Dated(w) && NoneOverdue(w, now) && n <= |w.queue|
    ensures Dated(Drain(w, n, window, attempts)) && NoneOverdue(Drain(w, n, window, attempts), now)
  {
    hide Tidy, Dated, NoneOverdue, Replay, Drain;
    var inv := (v: Worker) => Tidy(v) && Dated(v) && NoneOverdue(v, now);
    forall v: Worker, a: Attempt | v.queue != [] && !Gated(v, a) && inv(v)
      ensures inv(Replay(v, window, a))
    {
      ReplayTidy(v, window, a);
      ReplayDated(v, window, a, now);
    }
    DrainKeeps(inv, w, n, window, attempts);
  }

  /** After a tick at `now` no parked publish has a deadline at or before `now`. */
  lemma TickDated(w: Worker, now: int, window: int, expired: set<nat>, attempts: nat -> Attempt)
    requires Tidy(w) && Dated(w)
    ensures Dated(Tick(w, now, window, expired, attempts))
    ensures NoneOverdue(Tick(w, now, window, expired, attempts), now)
  {
    hide Sweep, Drain, NoneOverdue;
    var aged := w.(store := Keeping(w.store, expired), dec := w.dec[ExpiredPrefix(w.dec, now)..]);
    SweepTidy(aged, now);
    SweepDated(aged, now);
    var swept := Sweep(aged, now);
    DrainDated(swept, |swept.queue|, window, attempts, now);
  }

  lemma CollectAndSendDated(w: Worker, id: TraceId, reason: byte, need: Need, deadline: int, fallback: int, a: Attempt)
    requires Dated(w) && (need.publish ==> (id, deadline) in w.issued)
    ensures Dated(CollectAndSend(w, id, reason, need, deadline, fallback, a))
  {
    hide Dated, Park, Discharge, Try;
    ParkDated(w, id, reason, need, deadline, fallback);
    DischargeDated(w, id, reason, need, deadline, a);
  }

  /** A local keep's deadline is not the zero that stands for "none". */
  predicate DatesItself(origin: Origin, at: int, now: int, window: int) {
    origin.Local? ==> Clamp(at, now) + window != 0
  }

  lemma KeepDated(w: Worker, id: TraceId, reason: byte, origin: Origin, at: int, now: int, window: int, a: Attempt)
    requires Dated(w) && DatesItself(origin, at, now, window)
    ensures Dated(Keep(w, id, reason, origin, at, now, window, a))
    ensures w.issued <= Keep(w, id, reason, origin, at, now, window, a).issued
  {
    hide CollectAndSend;
    if !Holds(w.dec, id) {
      var deadline := Clamp(at, now) + window;
      var decided := Decide(w, id, origin, deadline);
      assert Dated(decided);
      CollectAndSendDated(decided, id, reason, Need(origin.Local?, true), deadline, a.clock + window, a);
      CollectAndSendHistory(decided, id, reason, Need(origin.Local?, true), deadline, a.clock + window, a);
    }
  }

  /** The decided list, the counters and the publish history are as they were. */
  ghost predicate SameHistory(a: Worker, b: Worker) {
    && a.issued == b.issued && a.owed == b.owed && a.dec == b.dec
    && a.keeps == b.keeps && a.keptLocal == b.keptLocal && a.keptBus == b.keptBus && a.duplicateKeeps == b.duplicateKeeps
  }

  lemma CollectAndSendHistory(w: Worker, id: TraceId, reason: byte, need: Need, deadline: int, fallback: int, a: Attempt)
    ensures SameHistory(CollectAndSend(w, id, reason, need, deadline, fallback, a), w)
  {
    hide Try;
  }

  lemma AppendDated(w: Worker, n: nat, id: TraceId, appended: bool, room: bool, fallback: int)
    requires Dated(w)
    ensures Dated(AppendFragment(w, n, id, appended, room, fallback))
  {
    hide Holds, Park;
    if appended {
      var onDisk := w.(store := w.store + [Stored(n, id)]);
      ParkDated(onDisk, id, 0, NEED_FLUSH, 0, fallback);
    }
  }

  // ----------------------------------------------------------- whole runs

  ghost predicate SystemDated(s: System) {
    && Dated(s.w)
    && (forall j :: j in s.held ==> DatedJob(j, s.w.issued))
    && (forall r :: r in s.retries ==> DatedRetry(r, s.w.issued))
  }

  predicate EventDatesItself(e: Event, window: int) {
    e.KeepVerdict? ==> DatesItself(e.origin, e.at, e.now, window)
  }

  lemma GatherDated(s: System, window: int, k: nat)
    requires SystemDated(s)
    ensures SystemDated(Step(s, window, Gather(k)))
  {
    if s.held == [] && 0 < k <= |s.w.jobs| {
      assert forall j :: j in s.w.jobs[k..] ==> j in s.w.jobs;
      assert forall j :: j in s.w.jobs[..k] ==> j in s.w.jobs;
    }
  }

  /** The flusher hands back the needs and deadline it was given, or the flush alone. */
  lemma HandleDated(s: System, c: Consumption, lands: bool)
    requires SystemDated(s) && s.held != []
    ensures SystemDated(Handle(s, c, lands))
  {
    hide Dated;
    var j := s.held[0];
    assert j in s.held;
    assert forall x :: x in s.held[1..] ==> x in s.held;
    HandleLedger(s, c, lands);
    var s' := Handle(s, c, lands);
    forall r | r in s'.retries
      ensures DatedRetry(r, s.w.issued)
    {
      assert r in s.retries || (r.id == j.id && r.deadline == j.deadline);
    }
  }

  lemma HandBackDated(s: System, window: int, i: nat, now: int)
    requires SystemDated(s)
    ensures SystemDated(Step(s, window, HandBack(i, now)))
  {
    hide Dated, Park;
    if i < |s.retries| {
      var r := s.retries[i];
      assert r in s.retries;
      ParkDated(s.w, r.id, r.reason, r.need, r.deadline, now + window);
      ParkHistory(s.w, r.id, r.reason, r.need, r.deadline, now + window);
      assert forall x :: x in s.retries[..i] + s.retries[i + 1..] ==> x in s.retries;
    }
  }

  lemma ParkHistory(w: Worker, id: TraceId, reason: byte, need: Need, deadline: int, fallback: int)
    ensures SameHistory(Park(w, id, reason, need, deadline, fallback), w)
  {
  }

  /** A tick evicts decisions and leaves the rest of the history alone. */
  lemma TickHistory(w: Worker, now: int, window: int, expired: set<nat>, attempts: nat -> Attempt)
    ensures SameHistory(Tick(w, now, window, expired, attempts), w.(dec := w.dec[ExpiredPrefix(w.dec, now)..]))
  {
    hide Drain, Replay;
    var aged := w.(store := Keeping(w.store, expired), dec := w.dec[ExpiredPrefix(w.dec, now)..]);
    var inv := (v: Worker) => SameHistory(v, aged);
    forall v: Worker, a: Attempt | v.queue != [] && !Gated(v, a) && inv(v)
      ensures inv(Replay(v, window, a))
    {
      ReplayHistory(v, window, a);
    }
    DrainKeeps(inv, Sweep(aged, now), |Sweep(aged, now).queue|, window, attempts);
  }

  lemma ReplayHistory(w: Worker, window: int, a: Attempt)
    requires w.queue != []
    ensures SameHistory(Replay(w, window, a), w)
  {
    hide Try;
  }

  lemma AppendHistory(w: Worker, n: nat, id: TraceId, appended: bool, room: bool, fallback: int)
    ensures SameHistory(AppendFragment(w, n, id, appended, room, fallback), w)
  {
  }

  lemma AgedDated(w: Worker, store: seq<Stored>)
    requires Dated(w)
    ensures Dated(w.(store := store))
  {
  }

  lemma StepDated(s: System, window: int, e: Event)
    requires Tidy(s.w) && SystemDated(s) && EventDatesItself(e, window)
    ensures SystemDated(Step(s, window, e))
  {
    hide Tidy, Dated, Handle, Publish, Tick, Keep, AppendFragment, Park;
    match e
    case Fragment(id, appended, room, now) =>
      AppendDated(s.w, s.nextFrag, id, appended, room, now + window);
      AppendHistory(s.w, s.nextFrag, id, appended, room, now + window);
    case KeepVerdict(id, reason, origin, at, now, attempt) =>
      KeepDated(s.w, id, reason, origin, at, now, window, attempt);
    case HandBack(i, now) => HandBackDated(s, window, i, now);
    case Ticked(now, expired, attempts) =>
      TickDated(s.w, now, window, expired, attempts);
      TickHistory(s.w, now, window, expired, attempts);
    case Sacrificed(expired) => AgedDated(s.w, Keeping(s.w.store, expired));
    case Gather(k) => GatherDated(s, window, k);
    case Published(failed) => PublishFrame(s, failed);
    case Handled(c, lands) => if s.held != [] { HandleDated(s, c, lands); }
    case Stop =>
  }

  /** In every run, each outstanding publish has the deadline of a keep that issued it. */
  lemma {:induction false} RunDated(window: int, events: seq<Event>)
    requires forall e :: e in events ==> EventDatesItself(e, window)
    ensures SystemDated(Run(window, events))
  {
    hide Step, EventDatesItself;
    if events != [] {
      hide SystemDated, Tidy;
      var m := |events| - 1;
      RunDated(window, events[..m]);
      RunTidy(window, events[..m]);
      assert events[m] in events;
      StepDated(Run(window, events[..m]), window, events[m]);
    }
  }
}
