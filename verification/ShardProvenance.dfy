/**
 Only kept traces are forwarded, and under a reason they were kept for: whatever
 is parked, sent, held, handed back or accepted in a run goes back to a keep of
 that run which decided its trace.
 */
module ShardProvenance {
  import opened Types
  import opened DecidedSet
  import opened ShardModel
  import opened ShardQueue
  import opened ShardRun
  import opened ShardDeadlines
  import opened ShardDecisions
  import opened ShardDelivery

  /** What a run was given: the traces its keeps decided, with their reasons, and the trace of each fragment by number. */
  datatype Given = Given(reasons: set<(TraceId, byte)>, frags: seq<TraceId>)

  ghost function GivenBy(window: int, events: seq<Event>): (g: Given) {
    if events == [] then Given({}, [])
    else
      var m := |events| - 1;
      var g, e := GivenBy(window, events[..m]), events[m];
      Given(if Fresh(window, events, m) then g.reasons + {(e.id, e.reason)} else g.reasons,
            if e.Fragment? then g.frags + [e.id] else g.frags)
  }

  /** A reason is on record exactly if some keep of the run decided that trace with it. */
  lemma {:induction false} GivenByKeeps(window: int, events: seq<Event>, id: TraceId, reason: byte)
    ensures (id, reason) in GivenBy(window, events).reasons
       <==> exists i: nat :: Fresh(window, events, i) && events[i].id == id && events[i].reason == reason
  {
    hide Run, Holds;
    if events != [] {
      var m := |events| - 1;
      GivenByKeeps(window, events[..m], id, reason);
      if i: nat :| Fresh(window, events[..m], i) && events[..m][i].id == id && events[..m][i].reason == reason {
        assert events[..m][..i] == events[..i];
        assert Fresh(window, events, i);
      }
      if i: nat :| Fresh(window, events, i) && events[i].id == id && events[i].reason == reason {
        if i < m {
          assert events[..m][..i] == events[..i];
          assert Fresh(window, events[..m], i);
        }
      }
    }
  }

  /** Fragment `n` of the run came with the `n`-th arrival. */
  function Arrivals(events: seq<Event>): (ids: seq<TraceId>) {
    if events == [] then []
    else
      var m := |events| - 1;
      Arrivals(events[..m]) + if events[m].Fragment? then [events[m].id] else []
  }

  lemma {:induction false} GivenArrivals(window: int, events: seq<Event>)
    ensures GivenBy(window, events).frags == Arrivals(events)
  {
    hide Fresh;
    if events != [] {
      GivenArrivals(window, events[..|events| - 1]);
    }
  }

  ghost predicate Kept(g: Given, id: TraceId) {
    exists reason :: (id, reason) in g.reasons
  }

  /** The trace was kept; its reason is one it was kept for, or none on work that is not broadcast. */
  ghost predicate Warranted(g: Given, id: TraceId, reason: byte, need: Need) {
    && Kept(g, id)
    && ((id, reason) in g.reasons || (reason == 0 && !need.publish))
  }

  ghost predicate WarrantedJob(g: Given, j: FlushJob) {
    && Warranted(g, j.id, j.reason, j.need)
    && forall n :: n in j.frags ==> n < |g.frags| && g.frags[n] == j.id
  }

  ghost predicate WarrantedFragment(g: Given, n: nat) {
    n < |g.frags| && Kept(g, g.frags[n])
  }

  ghost predicate WarrantedWorker(g: Given, w: Worker) {
    && (forall id :: id in w.pend ==> Warranted(g, id, w.pend[id].reason, w.pend[id].need))
    && (forall j :: j in w.jobs ==> WarrantedJob(g, j))
    && (forall i :: 0 <= i < |w.dec| ==> Kept(g, w.dec[i].id))
    && (forall f :: f in w.store ==> f.n < |g.frags| && g.frags[f.n] == f.id)
    && (forall n :: n in w.lost ==> WarrantedFragment(g, n))
  }

  ghost predicate WarrantedSystem(g: Given, s: System) {
    && WarrantedWorker(g, s.w)
    && (forall j :: j in s.held ==> WarrantedJob(g, j))
    && (forall r :: r in s.retries ==> Warranted(g, r.id, r.reason, r.need))
    && (forall n :: n in s.accepted || n in s.dropped ==> WarrantedFragment(g, n))
    && |g.frags| == s.nextFrag
  }

  // ---------------------------------------------------------- worker steps

  lemma MergeWarranted(g: Given, id: TraceId, req: PendReq, reason: byte, need: Need, deadline: int, fallback: int)
    requires req == NO_REQ || Warranted(g, id, req.reason, req.need)
    requires Warranted(g, id, reason, need)
    ensures Warranted(g, id, Merge(req, reason, need, deadline, fallback).reason, Merge(req, reason, need, deadline, fallback).need)
  {
  }

  lemma ParkWarranted(g: Given, w: Worker, id: TraceId, reason: byte, need: Need, deadline: int, fallback: int)
    requires WarrantedWorker(g, w) && Warranted(g, id, reason, need)
    ensures WarrantedWorker(g, Park(w, id, reason, need, deadline, fallback))
  {
    hide Warranted, Merge;
    MergeWarranted(g, id, ReqOf(w.pend, id), reason, need, deadline, fallback);
  }

  lemma DischargeWarranted(g: Given, w: Worker, id: TraceId, reason: byte, need: Need, deadline: int, a: Attempt)
    requires WarrantedWorker(g, w) && Warranted(g, id, reason, need)
    ensures WarrantedWorker(g, Discharge(w, id, reason, need, deadline, a))
  {
    hide Warranted, Kept, Try, Readable;
    CollectedWarranted(g, w, id, a.corrupt);
    var w' := Discharge(w, id, reason, need, deadline, a);
    forall n | n in w'.lost
      ensures WarrantedFragment(g, n)
    {
      if n !in w.lost {
        var s :| s in w.store && s.id == id && s.n == n;
        WarrantedKept(g, id, reason, need);
      }
    }
  }

  lemma WarrantedKept(g: Given, id: TraceId, reason: byte, need: Need)
    requires Warranted(g, id, reason, need)
    ensures Kept(g, id)
  {
  }

  lemma CollectedWarranted(g: Given, w: Worker, id: TraceId, corrupt: set<nat>)
    requires WarrantedWorker(g, w)
    ensures forall n :: n in Readable(w.store, id, corrupt) ==> n < |g.frags| && g.frags[n] == id
  {
    hide Warranted, WarrantedFragment, WarrantedJob;
    forall n | n in Readable(w.store, id, corrupt)
      ensures n < |g.frags| && g.frags[n] == id
    {
      ReadableExactly(w.store, id, corrupt, n);
    }
  }

  lemma CollectAndSendWarranted(g: Given, w: Worker, id: TraceId, reason: byte, need: Need, deadline: int, fallback: int, a: Attempt)
    requires WarrantedWorker(g, w) && Warranted(g, id, reason, need)
    ensures WarrantedWorker(g, CollectAndSend(w, id, reason, need, deadline, fallback, a))
  {
    hide WarrantedWorker, Warranted, Park, Discharge, Try;
    ParkWarranted(g, w, id, reason, need, deadline, fallback);
    DischargeWarranted(g, w, id, reason, need, deadline, a);
  }

  lemma DecideWarranted(g: Given, w: Worker, id: TraceId, origin: Origin, deadline: int)
    requires WarrantedWorker(g, w) && Kept(g, id)
    ensures WarrantedWorker(g, Decide(w, id, origin, deadline))
  {
    hide Kept, Warranted, WarrantedJob, WarrantedFragment;
  }

  /** A keep under the grant it makes itself. */
  lemma KeepWarranted(g: Given, w: Worker, id: TraceId, reason: byte, origin: Origin, at: int, now: int, window: int, a: Attempt)
    requires WarrantedWorker(g, w)
    requires !Holds(w.dec, id) ==> (id, reason) in g.reasons
    ensures WarrantedWorker(g, Keep(w, id, reason, origin, at, now, window, a))
  {
    hide WarrantedWorker, CollectAndSend, Holds;
    var deadline := Clamp(at, now) + window;
    if !Holds(w.dec, id) {
      DecideWarranted(g, w, id, origin, deadline);
      CollectAndSendWarranted(g, Decide(w, id, origin, deadline), id, reason, Need(origin.Local?, true), deadline, a.clock + window, a);
    } else {
      DuplicateWarranted(g, w);
    }
  }

  lemma DuplicateWarranted(g: Given, w: Worker)
    requires WarrantedWorker(g, w)
    ensures WarrantedWorker(g, w.(keeps := w.keeps + 1, duplicateKeeps := w.duplicateKeeps + 1))
  {
  }

  /** Only a fragment of a decided trace goes on to the flusher. */
  lemma AppendWarranted(g: Given, w: Worker, n: nat, id: TraceId, appended: bool, room: bool, fallback: int)
    requires WarrantedWorker(g, w) && n < |g.frags| && g.frags[n] == id
    ensures WarrantedWorker(g, AppendFragment(w, n, id, appended, room, fallback))
  {
    if appended {
      hide Park, Kept, WarrantedFragment;
      var onDisk := w.(store := w.store + [Stored(n, id)]);
      assert WarrantedWorker(g, onDisk);
      if Holds(w.dec, id) {
        ParkWarranted(g, onDisk, id, 0, NEED_FLUSH, 0, fallback);
      }
    }
  }

  lemma ReplayWarranted(g: Given, w: Worker, window: int, a: Attempt)
    requires WarrantedWorker(g, w) && w.queue != []
    ensures WarrantedWorker(g, Replay(w, window, a))
  {
    hide Park, Discharge, Try, Warranted, WarrantedJob, WarrantedFragment, Kept;
    var id := w.queue[0];
    var gone := w.(queue := w.queue[1..], pend := w.pend - {id});
    assert WarrantedWorker(g, gone);
    if id in w.pend {
      var req := w.pend[id];
      ParkWarranted(g, gone, id, req.reason, req.need, req.deadline, a.clock + window);
      DischargeWarranted(g, gone, id, req.reason, req.need, req.deadline, a);
    }
  }

  lemma SweepWarranted(g: Given, w: Worker, now: int)
    requires WarrantedWorker(g, w)
    ensures WarrantedWorker(g, Sweep(w, now))
  {
    hide Kept, WarrantedJob, WarrantedFragment;
  }

  lemma AgedWarranted(g: Given, w: Worker, expired: set<nat>, k: nat)
    requires WarrantedWorker(g, w) && k <= |w.dec|
    ensures WarrantedWorker(g, w.(store := Keeping(w.store, expired), dec := w.dec[k..]))
  {
    hide Kept, Warranted, WarrantedJob, WarrantedFragment, Keeping;
    forall f | f in Keeping(w.store, expired)
      ensures f in w.store
    {
      KeepingExactly(w.store, expired, f);
    }
  }

  lemma TickWarranted(g: Given, w: Worker, now: int, window: int, expired: set<nat>, attempts: nat -> Attempt)
    requires WarrantedWorker(g, w)
    ensures WarrantedWorker(g, Tick(w, now, window, expired, attempts))
  {
    hide WarrantedWorker, Sweep, Drain, Replay, Gated;
    var aged := w.(store := Keeping(w.store, expired), dec := w.dec[ExpiredPrefix(w.dec, now)..]);
    AgedWarranted(g, w, expired, ExpiredPrefix(w.dec, now));
    SweepWarranted(g, aged, now);
    var inv := (v: Worker) => WarrantedWorker(g, v);
    forall v: Worker, a: Attempt | v.queue != [] && !Gated(v, a) && inv(v)
      ensures inv(Replay(v, window, a))
    {
      ReplayWarranted(g, v, window, a);
    }
    DrainKeeps(inv, Sweep(aged, now), |Sweep(aged, now).queue|, window, attempts);
  }

  // ---------------------------------------------------------- system steps

  /** More keeps and more arrivals take nothing away. */
  ghost predicate Extends(g: Given, g': Given) {
    && g.reasons <= g'.reasons
    && |g.frags| <= |g'.frags| && forall i :: 0 <= i < |g.frags| ==> g'.frags[i] == g.frags[i]
  }

  lemma KeptExtends(g: Given, g': Given)
    requires Extends(g, g')
    ensures forall id :: Kept(g, id) ==> Kept(g', id)
  {
    forall id | Kept(g, id)
      ensures Kept(g', id)
    {
      var reason :| (id, reason) in g.reasons;
      assert (id, reason) in g'.reasons;
    }
  }

  lemma WarrantsExtend(g: Given, g': Given)
    requires Extends(g, g')
    ensures forall id, reason, need :: Warranted(g, id, reason, need) ==> Warranted(g', id, reason, need)
    ensures forall n :: WarrantedFragment(g, n) ==> WarrantedFragment(g', n)
  {
    hide Kept;
    KeptExtends(g, g');
  }

  lemma JobsExtend(g: Given, g': Given)
    requires Extends(g, g')
    ensures forall j :: WarrantedJob(g, j) ==> WarrantedJob(g', j)
  {
    hide Warranted, WarrantedFragment;
    WarrantsExtend(g, g');
  }

  lemma WorkerExtends(g: Given, g': Given, w: Worker)
    requires Extends(g, g') && WarrantedWorker(g, w)
    ensures WarrantedWorker(g', w)
  {
    hide Warranted, WarrantedJob, WarrantedFragment, Kept;
    KeptExtends(g, g');
    WarrantsExtend(g, g');
    JobsExtend(g, g');
  }

  lemma HandleWarranted(g: Given, s: System, c: Consumption, lands: bool)
    requires WarrantedSystem(g, s) && s.held != []
    ensures WarrantedSystem(g, Handle(s, c, lands))
  {
    hide WarrantedWorker, Kept, Consume;
    var j, s' := s.held[0], Handle(s, c, lands);
    assert j in s.held;
    assert forall x :: x in s.held[1..] ==> x in s.held;
    HandleLedger(s, c, lands);
    HandleSettlesOwn(s, c, lands);
    assert Warranted(g, j.id, j.reason, NEED_FLUSH);
  }

  /** Handling a job settles no fragment but its own. */
  lemma HandleSettlesOwn(s: System, c: Consumption, lands: bool)
    requires s.held != []
    ensures var s' := Handle(s, c, lands);
            && s'.nextFrag == s.nextFrag
            && (forall n :: n in s'.accepted ==> n in s.accepted || n in s.held[0].frags)
            && (forall n :: n in s'.dropped ==> n in s.dropped || n in s.held[0].frags)
  {
  }

  lemma HandBackWarranted(g: Given, s: System, window: int, i: nat, now: int)
    requires WarrantedSystem(g, s)
    ensures WarrantedSystem(g, Step(s, window, HandBack(i, now)))
  {
    hide WarrantedWorker, Warranted, WarrantedJob, WarrantedFragment, Park;
    if i < |s.retries| {
      var r := s.retries[i];
      assert r in s.retries;
      ParkWarranted(g, s.w, r.id, r.reason, r.need, r.deadline, now + window);
      assert forall x :: x in s.retries[..i] + s.retries[i + 1..] ==> x in s.retries;
    }
  }

  lemma GatherWarranted(g: Given, s: System, window: int, k: nat)
    requires WarrantedSystem(g, s)
    ensures WarrantedSystem(g, Step(s, window, Gather(k)))
  {
    hide Warranted, WarrantedJob, WarrantedFragment, Kept;
    if s.held == [] && 0 < k <= |s.w.jobs| {
      assert forall j :: j in s.w.jobs[k..] ==> j in s.w.jobs;
      assert forall j :: j in s.w.jobs[..k] ==> j in s.w.jobs;
    }
  }

  lemma PublishWarranted(g: Given, s: System, failed: set<TraceId>)
    requires WarrantedSystem(g, s)
    ensures WarrantedSystem(g, Publish(s, failed))
  {
    hide WarrantedWorker, WarrantedJob, Warranted, WarrantedFragment;
  }

  /** One step, under what the run has been given with that event. */
  lemma StepWarranted(g: Given, s: System, window: int, e: Event)
    requires WarrantedWorker(g, s.w)
    requires WarrantedSystem(g.(frags := if e.Fragment? && g.frags != [] then g.frags[..|g.frags| - 1] else g.frags), s)
    requires e.Fragment? ==> g.frags != [] && g.frags[|g.frags| - 1] == e.id
    requires e.KeepVerdict? && !Holds(s.w.dec, e.id) ==> (e.id, e.reason) in g.reasons
    ensures WarrantedSystem(g, Step(s, window, e))
  {
    hide WarrantedWorker, WarrantedJob, Warranted, WarrantedFragment, Kept, Holds, Handle, Publish, Tick, Keep, AppendFragment, Park;
    match e
    case Fragment(id, appended, room, now) =>
      var before := g.(frags := g.frags[..|g.frags| - 1]);
      WarrantsExtend(before, g);
      JobsExtend(before, g);
      AppendWarranted(g, s.w, s.nextFrag, id, appended, room, now + window);
    case KeepVerdict(id, reason, origin, at, now, attempt) =>
      KeepWarranted(g, s.w, id, reason, origin, at, now, window, attempt);
    case HandBack(i, now) => HandBackWarranted(g, s, window, i, now);
    case Ticked(now, expired, attempts) => TickWarranted(g, s.w, now, window, expired, attempts);
    case Sacrificed(expired) => AgedWarranted(g, s.w, expired, 0);
    case Gather(k) => GatherWarranted(g, s, window, k);
    case Published(failed) => PublishWarranted(g, s, failed);
    case Handled(c, lands) => if s.held != [] { HandleWarranted(g, s, c, lands); }
    case Stop =>
  }

  lemma {:induction false} RunWarranted(window: int, events: seq<Event>)
    ensures WarrantedSystem(GivenBy(window, events), Run(window, events))
  {
    if events != [] {
      hide Step, WarrantedWorker, WarrantedJob, Warranted, WarrantedFragment, Kept, Holds;
      var m := |events| - 1;
      var s, g, g' := Run(window, events[..m]), GivenBy(window, events[..m]), GivenBy(window, events);
      RunWarranted(window, events[..m]);
      assert Extends(g, g');
      WorkerExtends(g, g', s.w);
      WarrantsExtend(g, g');
      JobsExtend(g, g');
      StepWarranted(g', s, window, events[m]);
    }
  }

  // -------------------------------------------------------------- theorems

  /** Work on trace `id` is parked, in the channel, with the flusher or on its way back, with this reason. */
  ghost predicate Works(s: System, id: TraceId, reason: byte, publish: bool) {
    || (id in s.w.pend && s.w.pend[id].reason == reason && s.w.pend[id].need.publish == publish)
    || (exists j :: (j in s.w.jobs || j in s.held) && j.id == id && j.reason == reason && j.need.publish == publish)
    || (exists r :: r in s.retries && r.id == id && r.reason == reason && r.need.publish == publish)
  }

  /** An earlier event of the run was a keep that decided the trace. */
  ghost predicate KeptIn(window: int, events: seq<Event>, id: TraceId) {
    exists i: nat :: Fresh(window, events, i) && events[i].id == id
  }

  ghost predicate KeptFor(window: int, events: seq<Event>, id: TraceId, reason: byte) {
    exists i: nat :: Fresh(window, events, i) && events[i].id == id && events[i].reason == reason
  }

  lemma KeptMeans(window: int, events: seq<Event>, id: TraceId)
    requires Kept(GivenBy(window, events), id)
    ensures KeptIn(window, events, id)
  {
    hide GivenBy, Fresh;
    var reason :| (id, reason) in GivenBy(window, events).reasons;
    GivenByKeeps(window, events, id, reason);
  }

  /**
   Only kept traces are worked on: in every run, whatever is parked, in the
   channel, with the flusher or on its way back belongs to a trace that a keep of
   the run decided. What is to be broadcast carries a reason such a keep gave;
   the rest carries one, or none.
   */
  lemma OnlyKeptTracesTravel(window: int, events: seq<Event>, id: TraceId, reason: byte, publish: bool)
    requires Works(Run(window, events), id, reason, publish)
    ensures KeptIn(window, events, id)
    ensures KeptFor(window, events, id, reason) || (reason == 0 && !publish)
  {
    hide Run, GivenBy, Fresh, KeptIn, Kept;
    RunWarranted(window, events);
    KeptMeans(window, events, id);
    GivenByKeeps(window, events, id, reason);
  }

  /** Every job carries fragments of its own trace only, as they arrived. */
  lemma JobsCarryTheirOwn(window: int, events: seq<Event>, j: FlushJob, n: nat)
    requires var s := Run(window, events); (j in s.w.jobs || j in s.held) && n in j.frags
    ensures n < |Arrivals(events)| && Arrivals(events)[n] == j.id
  {
    hide Run, GivenBy, Warranted, Kept;
    RunWarranted(window, events);
    GivenArrivals(window, events);
  }

  /** What the next consumer has accepted is a fragment that arrived, of a trace that a keep of the run decided. */
  lemma AcceptedWasKept(window: int, events: seq<Event>, n: nat)
    requires n in Run(window, events).accepted
    ensures n < |Arrivals(events)| && KeptIn(window, events, Arrivals(events)[n])
  {
    hide Run, GivenBy, WarrantedWorker, Warranted, Kept, KeptIn;
    RunWarranted(window, events);
    GivenArrivals(window, events);
    KeptMeans(window, events, Arrivals(events)[n]);
  }

  /** A run without keeps forwards nothing. */
  lemma NothingWithoutKeeps(window: int, events: seq<Event>)
    requires forall e :: e in events ==> !e.KeepVerdict?
    ensures var s := Run(window, events);
            s.w.pend == map[] && s.w.jobs == [] && s.held == [] && s.retries == [] && s.accepted == {} && s.dropped == {}
  {
    hide Run, GivenBy, Kept;
    RunWarranted(window, events);
    forall id
      ensures !Kept(GivenBy(window, events), id)
    {
      if Kept(GivenBy(window, events), id) {
        KeptMeans(window, events, id);
      }
    }
    NoneWarranted(GivenBy(window, events), Run(window, events));
  }

  lemma NoneWarranted(g: Given, s: System)
    requires WarrantedSystem(g, s) && forall id :: !Kept(g, id)
    ensures s.w.pend == map[] && s.w.jobs == [] && s.held == [] && s.retries == [] && s.accepted == {} && s.dropped == {}
  {
    hide Kept;
    Inhabited(s.w.jobs);
    Inhabited(s.held);
    Inhabited(s.retries);
  }

  lemma Inhabited<T>(s: seq<T>)
    ensures s == [] || exists x :: x in s
  {
    assert s != [] ==> s[0] in s;
  }
}
