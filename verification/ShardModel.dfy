/**
 One shard's decision and flush machine, as functions on its state: what each
 queue event and each tick does to the decided list, the parked intents and
 the flush channel. Clocks, disk errors, corruption and channel room are inputs.
 */
module ShardModel {
  import opened Types
  import opened DecidedSet

  /** The bit set of work a job or intent still owes. */
  datatype Need = Need(publish: bool, flush: bool)

  const NO_NEED := Need(false, false)
  const NEED_FLUSH := Need(false, true)

  function Or(a: Need, b: Need): (n: Need) {
    Need(a.publish || b.publish, a.flush || b.flush)
  }

  datatype Origin = Local | Bus | Baseline

  /** A fragment on disk; `n` numbers fragments in the order they were appended. */
  datatype Stored = Stored(n: nat, id: TraceId)

  datatype PendReq = PendReq(reason: byte, need: Need, queued: bool, deadline: int)

  const NO_REQ := PendReq(0, NO_NEED, false, 0)

  datatype FlushJob = FlushJob(id: TraceId, reason: byte, need: Need, frags: seq<nat>, deadline: int)

  /** Work the flusher hands back. */
  datatype RetryEvent = RetryEvent(id: TraceId, reason: byte, need: Need, deadline: int)

  /**
   What one collect-and-send attempt meets: a read error at some record, corrupt
   fragments, room in the channel, and what the clock reads should it park.
   */
  datatype Attempt = Attempt(readError: bool, errorAt: nat, corrupt: set<nat>, room: bool, clock: int)

  datatype Outcome = SentOk | SendFull | CollectErr | NothingOwed

  /**
   The worker's state. `queue` is the part of the parked queue not yet consumed.
   The fields from `lost` on record history the source keeps only as totals:
   fragments skipped as corrupt, and per trace the publishes fresh local keeps
   came to owe, those abandoned and merged, and every deadline a fresh local keep issued.
   */
  datatype Worker = Worker(
    pend: map<TraceId, PendReq>,
    queue: seq<TraceId>,
    dec: seq<Entry>,
    store: seq<Stored>,
    jobs: seq<FlushJob>,
    lost: set<nat>,
    owed: multiset<TraceId>,
    abandoned: multiset<TraceId>,
    merged: multiset<TraceId>,
    issued: set<(TraceId, int)>,
    keeps: nat,
    keptLocal: nat,
    keptBus: nat,
    duplicateKeeps: nat)

  function Clamp(at: int, now: int): (t: int)
    ensures t <= now && t <= at && (t == at || t == now)
  {
    if at > now then now else at
  }

  function ReqOf(pend: map<TraceId, PendReq>, id: TraceId): (r: PendReq) {
    if id in pend then pend[id] else NO_REQ
  }

  /** The entry a park leaves: needs OR, first nonzero reason wins, a deadline only with NeedPublish. */
  function Merge(req: PendReq, reason: byte, need: Need, deadline: int, fallback: int): (r: PendReq) {
    var d := if req.deadline == 0 then deadline else req.deadline;
    PendReq(if req.reason == 0 then reason else req.reason,
            Or(req.need, need),
            true,
            if need.publish then (if d == 0 then fallback else d) else req.deadline)
  }

  function Park(w: Worker, id: TraceId, reason: byte, need: Need, deadline: int, fallback: int): (w': Worker) {
    var req := ReqOf(w.pend, id);
    w.(pend := w.pend[id := Merge(req, reason, need, deadline, fallback)],
       queue := if req.queued then w.queue else w.queue + [id],
       merged := if need.publish && req.need.publish then w.merged + multiset{id} else w.merged)
  }

  /** The readable fragments of a trace, in append order. */
  function Readable(store: seq<Stored>, id: TraceId, corrupt: set<nat>): (ns: seq<nat>) {
    if store == [] then [] else
      var s := store[|store| - 1];
      Readable(store[..|store| - 1], id, corrupt) + (if s.id == id && s.n !in corrupt then [s.n] else [])
  }

  /** A number is collected exactly if a stored fragment of the trace carries it and it is not corrupt. */
  lemma {:induction false} ReadableExactly(store: seq<Stored>, id: TraceId, corrupt: set<nat>, n: nat)
    ensures n in Readable(store, id, corrupt) <==> n !in corrupt && Stored(n, id) in store
  {
    if store != [] {
      var m := |store| - 1;
      assert store == store[..m] + [store[m]];
      ReadableExactly(store[..m], id, corrupt, n);
    }
  }

  /** How one collect-and-send attempt ends. */
  function Try(store: seq<Stored>, id: TraceId, need: Need, a: Attempt): (o: Outcome) {
    if a.readError then CollectErr
    else if Readable(store, id, a.corrupt) == [] && !need.publish then NothingOwed
    else if a.room then SentOk else SendFull
  }

  /** An attempt that discharged its trace: the job is in the channel, or nothing was owed. */
  function Discharge(w: Worker, id: TraceId, reason: byte, need: Need, deadline: int, a: Attempt): (w': Worker) {
    var lost := set s | s in w.store && s.id == id && s.n in a.corrupt :: s.n;
    w.(jobs := if Try(w.store, id, need, a).SentOk?
               then w.jobs + [FlushJob(id, reason, need, Readable(w.store, id, a.corrupt), deadline)] else w.jobs,
       lost := w.lost + lost)
  }

  /** Collect and send; park what could not be sent. */
  function CollectAndSend(w: Worker, id: TraceId, reason: byte, need: Need, deadline: int, fallback: int, a: Attempt): (w': Worker) {
    var o := Try(w.store, id, need, a);
    if o.SendFull? || o.CollectErr? then Park(w, id, reason, need, deadline, fallback)
    else Discharge(w, id, reason, need, deadline, a)
  }

  /** A keep that decides its trace: marked until `deadline`, and counted by origin. */
  function Decide(w: Worker, id: TraceId, origin: Origin, deadline: int): (w': Worker) {
    Counted(w.(keeps := w.keeps + 1, dec := w.dec + [Entry(id, deadline)]), id, origin, deadline)
  }

  /** Count a deciding keep by origin; only a local one comes to owe a broadcast. */
  function Counted(w: Worker, id: TraceId, origin: Origin, deadline: int): (w': Worker) {
    w.(keptLocal := if origin.Bus? then w.keptLocal else w.keptLocal + 1,
       keptBus := if origin.Bus? then w.keptBus + 1 else w.keptBus,
       owed := if origin.Local? then w.owed + multiset{id} else w.owed,
       issued := if origin.Local? then w.issued + {(id, deadline)} else w.issued)
  }

  function Keep(w: Worker, id: TraceId, reason: byte, origin: Origin, at: int, now: int, window: int, a: Attempt): (w': Worker) {
    KeepAt(w, id, reason, origin, Clamp(at, now) + window, window, a)
  }

  /** A keep good until `deadline`: a repeat is only counted, else the trace is decided and handed on. */
  function KeepAt(w: Worker, id: TraceId, reason: byte, origin: Origin, deadline: int, window: int, a: Attempt): (w': Worker) {
    if Holds(w.dec, id) then w.(keeps := w.keeps + 1, duplicateKeeps := w.duplicateKeeps + 1)
    else CollectAndSend(Decide(w, id, origin, deadline), id, reason, Need(origin.Local?, true), deadline, a.clock + window, a)
  }

  /** An arriving fragment: to disk, and for a decided trace straight on to the flusher as well. */
  function AppendFragment(w: Worker, n: nat, id: TraceId, appended: bool, room: bool, fallback: int): (w': Worker) {
    if !appended then w else
      var onDisk := w.(store := w.store + [Stored(n, id)]);
      if !Holds(w.dec, id) then onDisk
      else if room then onDisk.(jobs := w.jobs + [FlushJob(id, 0, NEED_FLUSH, [n], 0)])
      else Park(onDisk, id, 0, NEED_FLUSH, 0, fallback)
  }

  // ----------------------------------------------------------------- tick

  predicate Expired(req: PendReq, now: int) {
    req.need.publish && req.deadline <= now
  }

  /** An intent past its publish deadline stops owing the publish. */
  function SweepReq(req: PendReq, now: int): (r: PendReq) {
    if Expired(req, now) then req.(need := req.need.(publish := false), deadline := 0) else req
  }

  /** An intent the sweep deletes: it owed only an expired publish. */
  predicate SweptOut(req: PendReq, now: int) {
    Expired(req, now) && !req.need.flush
  }

  function Sweep(w: Worker, now: int): (w': Worker) {
    var overdue := set id | id in w.pend && Expired(w.pend[id], now);
    w.(pend := map id | id in w.pend && !SweptOut(w.pend[id], now) :: SweepReq(w.pend[id], now),
       abandoned := w.abandoned + multiset(overdue))
  }

  /** The head of the line owes work and the flush channel has no room for it. */
  predicate Gated(w: Worker, a: Attempt)
    requires w.queue != []
  {
    var id := w.queue[0];
    id in w.pend && w.pend[id].need != NO_NEED && Try(w.store, id, w.pend[id].need, a).SendFull?
  }

  /** Dispose of the head of the line: a tombstone goes, a read failure to the back, the rest is discharged. */
  function Replay(w: Worker, window: int, a: Attempt): (w': Worker)
    requires w.queue != []
    ensures |w'.queue| >= |w.queue| - 1
  {
    var id := w.queue[0];
    var gone := w.(queue := w.queue[1..], pend := w.pend - {id});
    if id !in w.pend || w.pend[id].need == NO_NEED then gone
    else
      var req := w.pend[id];
      if Try(w.store, id, req.need, a).CollectErr? then Park(gone, id, req.reason, req.need, req.deadline, a.clock + window)
      else Discharge(gone, id, req.reason, req.need, req.deadline, a)
  }

  /** Replay the first `n` intents in line, oldest first; the pass ends at the first full channel. */
  function Drain(w: Worker, n: nat, window: int, attempts: nat -> Attempt): (w': Worker)
    requires n <= |w.queue|
    decreases n
  {
    if n == 0 || Gated(w, attempts(n)) then w
    else Drain(Replay(w, window, attempts(n)), n - 1, window, attempts)
  }

  /** Fragments leave the disk, decisions are evicted, publishes past their deadline dropped, intents replayed. */
  function Tick(w: Worker, now: int, window: int, expired: set<nat>, attempts: nat -> Attempt): (w': Worker) {
    var swept := Sweep(w.(store := Keeping(w.store, expired), dec := w.dec[ExpiredPrefix(w.dec, now)..]), now);
    Drain(swept, |swept.queue|, window, attempts)
  }

  function Keeping(store: seq<Stored>, expired: set<nat>): (s: seq<Stored>) {
    if store == [] then [] else
      Keeping(store[..|store| - 1], expired) + (if store[|store| - 1].n in expired then [] else [store[|store| - 1]])
  }

  lemma {:induction false} KeepingExactly(store: seq<Stored>, expired: set<nat>, x: Stored)
    ensures x in Keeping(store, expired) <==> x in store && x.n !in expired
  {
    if store != [] {
      var m := |store| - 1;
      assert store == store[..m] + [store[m]];
      KeepingExactly(store[..m], expired, x);
    }
  }
}
