/**
 At-least-once hand-off: no fragment of a decided trace is forgotten while it
 is on disk and shutdown has not begun.
 */
module ShardDelivery {
  import opened Types
  import opened DecidedSet
  import opened ShardModel
  import opened ShardQueue
  import opened ShardRun
  import opened ShardDeadlines

  /** Some job carries the fragment. */
  ghost predicate Carried(js: seq<FlushJob>, f: Stored) {
    exists j :: j in js && j.id == f.id && f.n in j.frags
  }

  ghost predicate OwesFlush(w: Worker, id: TraceId) {
    id in w.pend && w.pend[id].need.flush
  }

  /** The shard itself still answers for the fragment, or has counted it as corrupt. */
  ghost predicate Covered(w: Worker, f: Stored) {
    f.n in w.lost || Carried(w.jobs, f) || OwesFlush(w, f.id)
  }

  lemma MoreJobs(js: seq<FlushJob>, j: FlushJob, f: Stored)
    ensures Carried(js + [j], f) <==> Carried(js, f) || (j.id == f.id && f.n in j.frags)
  {
    if j.id == f.id && f.n in j.frags {
      assert j in js + [j];
    }
  }

  lemma ParkCovers(w: Worker, id: TraceId, reason: byte, need: Need, deadline: int, fallback: int, f: Stored)
    requires Covered(w, f) || (need.flush && id == f.id)
    ensures Covered(Park(w, id, reason, need, deadline, fallback), f)
  {
  }

  /** A discharged trace has every fragment on disk in the job, or counted as corrupt. */
  lemma DischargeCovers(w: Worker, id: TraceId, reason: byte, need: Need, deadline: int, a: Attempt, f: Stored)
    requires !Try(w.store, id, need, a).SendFull? && !Try(w.store, id, need, a).CollectErr?
    requires f in w.store
    requires Covered(w, f) || id == f.id
    ensures Covered(Discharge(w, id, reason, need, deadline, a), f)
  {
    var job := FlushJob(id, reason, need, Readable(w.store, id, a.corrupt), deadline);
    hide Readable;
    MoreJobs(w.jobs, job, f);
    ReadableExactly(w.store, id, a.corrupt, f.n);
  }

  lemma CollectAndSendCovers(w: Worker, id: TraceId, reason: byte, need: Need, deadline: int, fallback: int, a: Attempt, f: Stored)
    requires need.flush && f in w.store
    requires Covered(w, f) || id == f.id
    ensures Covered(CollectAndSend(w, id, reason, need, deadline, fallback, a), f)
  {
    hide Covered, Park, Discharge;
    var o := Try(w.store, id, need, a);
    if o.SendFull? || o.CollectErr? {
      ParkCovers(w, id, reason, need, deadline, fallback, f);
    } else {
      DischargeCovers(w, id, reason, need, deadline, a, f);
    }
  }

  lemma ReplayCovers(w: Worker, window: int, a: Attempt, f: Stored)
    requires Tidy(w) && w.queue != [] && !Gated(w, a) && f in w.store && Covered(w, f)
    ensures Covered(Replay(w, window, a), f)
  {
    hide Park, Discharge, Tidy;
    TidyHead(w);
    var id := w.queue[0];
    var req, gone := w.pend[id], w.(queue := w.queue[1..], pend := w.pend - {id});
    assert Covered(gone, f) || id == f.id;
    if Try(w.store, id, req.need, a).CollectErr? {
      ParkCovers(gone, id, req.reason, req.need, req.deadline, a.clock + window, f);
    } else {
      DischargeCovers(gone, id, req.reason, req.need, req.deadline, a, f);
    }
  }

  lemma TickCovers(w: Worker, now: int, window: int, expired: set<nat>, attempts: nat -> Attempt, f: Stored)
    requires Tidy(w) && Covered(w, f) && f in Keeping(w.store, expired)
    ensures Covered(Tick(w, now, window, expired, attempts), f)
  {
    hide Tidy, Drain, Replay, Gated;
    var aged := w.(store := Keeping(w.store, expired), dec := w.dec[ExpiredPrefix(w.dec, now)..]);
    AgedTidy(w, aged.store, aged.dec);
    SweepTidy(aged, now);
    var inv := (v: Worker) => Tidy(v) && v.store == aged.store && Covered(v, f);
    forall v: Worker, a: Attempt | v.queue != [] && !Gated(v, a) && inv(v)
      ensures inv(Replay(v, window, a))
    {
      ReplayTidy(v, window, a);
      ReplayQueue(v, window, a);
      ReplayCovers(v, window, a, f);
    }
    DrainKeeps(inv, Sweep(aged, now), |Sweep(aged, now).queue|, window, attempts);
  }

  lemma {:induction false} TickStore(w: Worker, now: int, window: int, expired: set<nat>, attempts: nat -> Attempt)
    ensures Tick(w, now, window, expired, attempts).store == Keeping(w.store, expired)
  {
    hide Drain, Replay, Gated;
    var store := Keeping(w.store, expired);
    var swept := Sweep(w.(store := store, dec := w.dec[ExpiredPrefix(w.dec, now)..]), now);
    var inv := (v: Worker) => SameStore(v, store);
    forall v: Worker, a: Attempt | v.queue != [] && !Gated(v, a) && inv(v)
      ensures inv(Replay(v, window, a))
    {
      ReplayQueue(v, window, a);
    }
    DrainKeeps(inv, swept, |swept.queue|, window, attempts);
  }

  ghost predicate SameStore(w: Worker, store: seq<Stored>) { w.store == store }

  /** A keep leaves every fragment of its trace answered for, decided just now or before. */
  lemma KeepCovers(w: Worker, id: TraceId, reason: byte, origin: Origin, at: int, now: int, window: int, a: Attempt, f: Stored)
    requires f in w.store
    requires Covered(w, f) || (id == f.id && !Holds(w.dec, id))
    ensures Covered(Keep(w, id, reason, origin, at, now, window, a), f)
  {
    hide CollectAndSend;
    if !Holds(w.dec, id) {
      var deadline := Clamp(at, now) + window;
      CollectAndSendCovers(Decide(w, id, origin, deadline), id, reason, Need(origin.Local?, true), deadline, a.clock + window, a, f);
    }
  }

  lemma AppendCovers(w: Worker, n: nat, id: TraceId, appended: bool, room: bool, fallback: int, f: Stored)
    requires Covered(w, f) || (f == Stored(n, id) && appended && Holds(w.dec, id))
    ensures Covered(AppendFragment(w, n, id, appended, room, fallback), f)
  {
    hide Holds;
    if appended {
      MoreJobs(w.jobs, FlushJob(id, 0, NEED_FLUSH, [n], 0), f);
      if f == Stored(n, id) {
        assert f.n in [n];
      }
    }
  }

  // ----------------------------------------------------------- whole runs

  ghost predicate Returning(rs: seq<RetryEvent>, id: TraceId) {
    exists r :: r in rs && r.id == id && r.need.flush
  }

  /** The fragment was accepted downstream, is in someone's hands, is owed a flush, or was counted as dropped. */
  ghost predicate Accounted(s: System, f: Stored) {
    || f.n in s.accepted || f.n in s.dropped
    || Covered(s.w, f) || Carried(s.held, f) || Returning(s.retries, f.id)
  }

  /** Every fragment on disk of a decided trace is accounted for. */
  ghost predicate NothingForgotten(s: System) {
    forall f :: f in s.w.store && Holds(s.w.dec, f.id) ==> Accounted(s, f)
  }

  /** Handling one job settles each fragment it carries, or hands its trace back. */
  lemma HandleAccounts(s: System, c: Consumption, lands: bool, f: Stored)
    requires s.held != [] && s.held[0].need.flush && (lands || !s.stopping)
    requires Accounted(s, f)
    ensures Accounted(Handle(s, c, lands), f)
  {
    hide Covered;
    var s' := Handle(s, c, lands);
    var j := s.held[0];
    if Carried(s.held, f) {
      SplitJobs(s.held, f);
      if j.id == f.id && f.n in j.frags {
        HandleSettles(s, c, lands, f.n);
      }
    }
    if Returning(s.retries, f.id) {
      var r :| r in s.retries && r.id == f.id && r.need.flush;
      assert r in s'.retries;
    }
  }

  lemma SplitJobs(js: seq<FlushJob>, f: Stored)
    requires js != []
    ensures Carried(js, f) <==> (js[0].id == f.id && f.n in js[0].frags) || Carried(js[1..], f)
  {
    assert js == [js[0]] + js[1..];
  }

  lemma HandleSettles(s: System, c: Consumption, lands: bool, n: nat)
    requires s.held != [] && s.held[0].need.flush && (lands || !s.stopping) && n in s.held[0].frags
    ensures var s' := Handle(s, c, lands);
            n in s'.accepted || n in s'.dropped || Returning(s'.retries, s.held[0].id)
  {
    var s', j := Handle(s, c, lands), s.held[0];
    if s'.retries != s.retries {
      assert s'.retries[|s.retries|] in s'.retries;
    }
  }

  lemma HandBackAccounts(s: System, window: int, i: nat, now: int, f: Stored)
    requires Accounted(s, f)
    ensures Accounted(Step(s, window, HandBack(i, now)), f)
  {
    hide Covered, Park;
    if i < |s.retries| {
      var r := s.retries[i];
      if Covered(s.w, f) || (r.need.flush && r.id == f.id) {
        ParkCovers(s.w, r.id, r.reason, r.need, r.deadline, now + window, f);
      } else if Returning(s.retries, f.id) {
        var x :| x in s.retries && x.id == f.id && x.need.flush;
        RemoveOther(s.retries, i, x);
      }
    }
  }

  lemma RemoveOther(rs: seq<RetryEvent>, i: nat, x: RetryEvent)
    requires i < |rs| && x in rs && x != rs[i]
    ensures x in rs[..i] + rs[i + 1..]
  {
    var k :| 0 <= k < |rs| && rs[k] == x;
    if k < i {
      assert rs[..i][k] == x;
    } else {
      assert rs[i + 1..][k - i - 1] == x;
    }
  }

  lemma GatherAccounts(s: System, window: int, k: nat, f: Stored)
    requires Accounted(s, f)
    ensures Accounted(Step(s, window, Gather(k)), f)
  {
    if s.held == [] && 0 < k <= |s.w.jobs| && Carried(s.w.jobs, f) {
      var j :| j in s.w.jobs && j.id == f.id && f.n in j.frags;
      var p :| 0 <= p < |s.w.jobs| && s.w.jobs[p] == j;
      if p < k {
        assert s.w.jobs[..k][p] == j;
      } else {
        assert s.w.jobs[k..][p - k] == j;
      }
    }
  }

  /** No single step forgets a fragment. */
  lemma StepAccounts(s: System, window: int, e: Event, f: Stored)
    requires SystemTidy(s) && NothingForgotten(s) && !Step(s, window, e).stopping
    requires f in Step(s, window, e).w.store && Holds(Step(s, window, e).w.dec, f.id)
    ensures Accounted(Step(s, window, e), f)
  {
    hide Covered, Holds, Park, Tick, Keep, AppendFragment, Handle, Publish, Carried, Tidy;
    match e
    case Fragment(id, appended, room, now) => FragmentAccounts(s, window, e, f);
    case KeepVerdict(id, reason, origin, at, now, a) => KeepAccounts(s, window, e, f);
    case HandBack(i, now) =>
      HandBackFrame(s, window, i, now);
      HandBackAccounts(s, window, i, now, f);
    case Ticked(now, expired, attempts) => TickAccounts(s, window, e, f);
    case Sacrificed(expired) => SacrificeAccounts(s, window, e, f);
    case Gather(k) => GatherAccounts(s, window, k, f);
    case Published(failed) =>
      PublishFrame(s, failed);
      PublishAccounts(s, failed, f);
    case Handled(c, lands) =>
      if s.held != [] && !s.publishing {
        HandleFrame(s, c, lands);
        assert s.held[0] in s.held;
        HandleAccounts(s, c, lands, f);
      }
    case Stop =>
  }

  lemma PublishAccounts(s: System, failed: set<TraceId>, f: Stored)
    requires NothingForgotten(s) && f in s.w.store && Holds(s.w.dec, f.id)
    ensures Publish(s, failed).w == s.w && Accounted(Publish(s, failed), f)
  {
    hide Covered, Holds;
    assert Accounted(s, f);
  }

  lemma HandBackFrame(s: System, window: int, i: nat, now: int)
    ensures var s' := Step(s, window, HandBack(i, now)); s'.w.store == s.w.store && s'.w.dec == s.w.dec
  {
  }

  lemma FragmentAccounts(s: System, window: int, e: Event, f: Stored)
    requires NothingForgotten(s) && e.Fragment?
    requires f in Step(s, window, e).w.store && Holds(Step(s, window, e).w.dec, f.id)
    ensures Accounted(Step(s, window, e), f)
  {
    hide Holds, Covered, Carried, Park;
    AppendHistory(s.w, s.nextFrag, e.id, e.appended, e.room, e.now + window);
    AppendStore(s.w, s.nextFrag, e.id, e.appended, e.room, e.now + window);
    if f in s.w.store {
      assert Accounted(s, f);
    }
    if Covered(s.w, f) || f !in s.w.store {
      AppendCovers(s.w, s.nextFrag, e.id, e.appended, e.room, e.now + window, f);
    }
  }

  lemma AppendStore(w: Worker, n: nat, id: TraceId, appended: bool, room: bool, fallback: int)
    ensures AppendFragment(w, n, id, appended, room, fallback).store == if appended then w.store + [Stored(n, id)] else w.store
  {
    hide Holds;
  }

  lemma KeepAccounts(s: System, window: int, e: Event, f: Stored)
    requires NothingForgotten(s) && e.KeepVerdict?
    requires f in Step(s, window, e).w.store && Holds(Step(s, window, e).w.dec, f.id)
    ensures Accounted(Step(s, window, e), f)
  {
    hide Covered, Carried, CollectAndSend;
    KeepFrame(s.w, e.id, e.reason, e.origin, e.at, e.now, window, e.attempt, f.id);
    if Holds(s.w.dec, f.id) {
      assert Accounted(s, f);
      if Covered(s.w, f) {
        KeepCovers(s.w, e.id, e.reason, e.origin, e.at, e.now, window, e.attempt, f);
      }
    } else {
      KeepCovers(s.w, e.id, e.reason, e.origin, e.at, e.now, window, e.attempt, f);
    }
  }

  lemma KeepFrame(w: Worker, id: TraceId, reason: byte, origin: Origin, at: int, now: int, window: int, a: Attempt, other: TraceId)
    ensures Keep(w, id, reason, origin, at, now, window, a).store == w.store
    ensures Holds(Keep(w, id, reason, origin, at, now, window, a).dec, other) <==> Holds(w.dec, other) || other == id
  {
    hide CollectAndSend;
    if !Holds(w.dec, id) {
      var deadline := Clamp(at, now) + window;
      var decided := Decide(w, id, origin, deadline);
      CollectAndSendHistory(decided, id, reason, Need(origin.Local?, true), deadline, a.clock + window, a);
      CollectAndSendStore(decided, id, reason, Need(origin.Local?, true), deadline, a.clock + window, a);
      MarkHolds(w.dec, Entry(id, deadline), other);
    }
  }

  lemma MarkHolds(dec: seq<Entry>, entry: Entry, id: TraceId)
    ensures Holds(dec + [entry], id) <==> Holds(dec, id) || id == entry.id
  {
    if Holds(dec, id) {
      var i :| 0 <= i < |dec| && dec[i].id == id;
      assert (dec + [entry])[i].id == id;
    }
    if id == entry.id {
      assert (dec + [entry])[|dec|].id == id;
    }
  }

  lemma CollectAndSendStore(w: Worker, id: TraceId, reason: byte, need: Need, deadline: int, fallback: int, a: Attempt)
    ensures CollectAndSend(w, id, reason, need, deadline, fallback, a).store == w.store
  {
    hide Try;
  }

  lemma TickAccounts(s: System, window: int, e: Event, f: Stored)
    requires SystemTidy(s) && NothingForgotten(s) && e.Ticked?
    requires f in Step(s, window, e).w.store && Holds(Step(s, window, e).w.dec, f.id)
    ensures Accounted(Step(s, window, e), f)
  {
    hide Covered, Carried, Tidy, Tick;
    TickStore(s.w, e.now, window, e.expired, e.attempts);
    KeepingExactly(s.w.store, e.expired, f);
    TickHistory(s.w, e.now, window, e.expired, e.attempts);
    EvictHolds(s.w.dec, ExpiredPrefix(s.w.dec, e.now), f.id);
    assert Accounted(s, f);
    if Covered(s.w, f) {
      TickCovers(s.w, e.now, window, e.expired, e.attempts, f);
    }
  }

  lemma SacrificeAccounts(s: System, window: int, e: Event, f: Stored)
    requires NothingForgotten(s) && e.Sacrificed?
    requires f in Step(s, window, e).w.store && Holds(Step(s, window, e).w.dec, f.id)
    ensures Accounted(Step(s, window, e), f)
  {
    hide Holds, Carried, Keeping;
    KeepingExactly(s.w.store, e.expired, f);
    assert Accounted(s, f);
  }

  lemma EvictHolds(dec: seq<Entry>, n: nat, id: TraceId)
    requires n <= |dec| && Holds(dec[n..], id)
    ensures Holds(dec, id)
  {
    var i :| 0 <= i < |dec[n..]| && dec[n..][i].id == id;
    assert dec[n + i].id == id;
  }

  lemma StepStops(s: System, window: int, e: Event)
    ensures s.stopping ==> Step(s, window, e).stopping
  {
    hide Tick, Keep, AppendFragment, Park;
  }

  /**
   At-least-once hand-off. In every run in which shutdown has not begun, each
   fragment on disk of a currently decided trace has been accepted downstream,
   is in a job in the channel or in the flusher's hands, is owed a flush by the
   parked map or by a retry on its way back, or was dropped and counted.
   */
  lemma {:induction false} AtLeastOnce(window: int, events: seq<Event>)
    requires !Run(window, events).stopping
    ensures NothingForgotten(Run(window, events))
  {
    hide SystemTidy, Step, Accounted, Holds;
    if events != [] {
      var m := |events| - 1;
      var s, e := Run(window, events[..m]), events[m];
      StepStops(s, window, e);
      AtLeastOnce(window, events[..m]);
      RunTidy(window, events[..m]);
      forall f | f in Step(s, window, e).w.store && Holds(Step(s, window, e).w.dec, f.id)
        ensures Accounted(Step(s, window, e), f)
      {
        StepAccounts(s, window, e, f);
      }
    }
  }

  // -------------------------------------------------------- fragment numbers

  /** Stored fragments are numbered in the order they were appended, below `bound`. */
  ghost predicate Numbered(store: seq<Stored>, bound: nat) {
    && (forall i :: 0 <= i < |store| ==> store[i].n < bound)
    && (forall i, j :: 0 <= i < j < |store| ==> store[i].n < store[j].n)
  }

  lemma {:induction false} KeepingNumbered(store: seq<Stored>, expired: set<nat>, bound: nat)
    requires Numbered(store, bound)
    ensures Numbered(Keeping(store, expired), bound)
  {
    if store != [] {
      var m := |store| - 1;
      KeepingNumbered(store[..m], expired, bound);
      var rest := Keeping(store[..m], expired);
      forall i | 0 <= i < |rest|
        ensures rest[i].n < store[m].n
      {
        KeepingExactly(store[..m], expired, rest[i]);
        assert rest[i] in store[..m];
      }
    }
  }

  lemma StepStore(s: System, window: int, e: Event)
    ensures var s' := Step(s, window, e);
            && s'.w.store == (match e
                              case Fragment(id, appended, _, _) => if appended then s.w.store + [Stored(s.nextFrag, id)] else s.w.store
                              case Ticked(_, expired, _) => Keeping(s.w.store, expired)
                              case Sacrificed(expired) => Keeping(s.w.store, expired)
                              case _ => s.w.store)
            && s'.nextFrag == s.nextFrag + if e.Fragment? then 1 else 0
  {
    hide Tick, Keep, AppendFragment, Park, Handle, Publish, Holds;
    match e
    case Fragment(id, appended, room, now) => AppendStore(s.w, s.nextFrag, id, appended, room, now + window);
    case KeepVerdict(id, reason, origin, at, now, a) => KeepFrame(s.w, id, reason, origin, at, now, window, a, id);
    case HandBack(i, now) => HandBackFrame(s, window, i, now);
    case Ticked(now, expired, attempts) => TickStore(s.w, now, window, expired, attempts);
    case Sacrificed(expired) =>
    case Gather(k) =>
    case Published(failed) => PublishStays(s, failed);
    case Handled(c, lands) => if s.held != [] { HandleStays(s, c, lands); }
    case Stop =>
  }

  lemma PublishStays(s: System, failed: set<TraceId>)
    ensures Publish(s, failed).w == s.w && Publish(s, failed).nextFrag == s.nextFrag
  {
  }

  lemma HandleStays(s: System, c: Consumption, lands: bool)
    requires s.held != []
    ensures Handle(s, c, lands).w == s.w && Handle(s, c, lands).nextFrag == s.nextFrag
  {
    hide Consume;
    ConsumeShape(s.(held := s.held[1..]), s.held[0], c, lands);
  }

  /** A number names one fragment: in every run, what is accounted for by number is that fragment and no other. */
  lemma {:induction false} NumbersAreUnique(window: int, events: seq<Event>)
    ensures Numbered(Run(window, events).w.store, Run(window, events).nextFrag)
  {
    hide Step;
    if events != [] {
      var m := |events| - 1;
      var s := Run(window, events[..m]);
      NumbersAreUnique(window, events[..m]);
      StepStore(s, window, events[m]);
      if events[m].Ticked? || events[m].Sacrificed? {
        KeepingNumbered(s.w.store, events[m].expired, s.nextFrag);
      }
    }
  }
}
