/**
 Whole runs of one shard with its flusher: the worker's events, the flusher's
 batches, and the retries travelling back, under an adversarial bus, consumer,
 disk and clock.
 */
module ShardRun {
  import opened Types
  import opened DecidedSet
  import opened ShardModel

  /**
   `held` is the flusher's current batch; `publishing` until its one bus call has
   returned, then `failed` are the ids that call reported. `retries` are handed
   back but not yet parked. `accepted` fragments were taken by the next consumer;
   `dropped` ones were counted as undecodable or permanently refused, or carry no
   span. `acked`, `deduped` and `refused` record per trace the publishes
   acknowledged, folded into another of the same batch, and handed back after
   shutdown had begun.
   */
  datatype System = System(
    w: Worker,
    held: seq<FlushJob>,
    publishing: bool,
    failed: set<TraceId>,
    retries: seq<RetryEvent>,
    accepted: set<nat>,
    dropped: set<nat>,
    acked: multiset<TraceId>,
    deduped: multiset<TraceId>,
    refused: multiset<TraceId>,
    stopping: bool,
    nextFrag: nat)

  datatype Verdict = Accepted | Permanent | Retryable

  /** What decoding and consuming one job meets. */
  datatype Consumption = Consumption(undecodable: set<nat>, spanless: set<nat>, verdict: Verdict)

  /** What can happen next. `Sacrificed` is what the watermark rung deletes after a tick has drained. */
  datatype Event =
    | Fragment(id: TraceId, appended: bool, room: bool, now: int)
    | KeepVerdict(id: TraceId, reason: byte, origin: Origin, at: int, now: int, attempt: Attempt)
    | HandBack(i: nat, now: int)
    | Ticked(now: int, expired: set<nat>, attempts: nat -> Attempt)
    | Sacrificed(expired: set<nat>)
    | Gather(k: nat)
    | Published(failed: set<TraceId>)
    | Handled(c: Consumption, lands: bool)
    | Stop

  function PublishIds(js: seq<FlushJob>): (ids: set<TraceId>)
    ensures forall id :: id in ids <==> exists j :: j in js && j.id == id && j.need.publish
  {
    set j | j in js && j.need.publish :: j.id
  }

  /** How many of these jobs owe a publish for `id`. */
  function Owing(js: seq<FlushJob>, id: TraceId): (n: nat) {
    if js == [] then 0 else
      (if js[0].id == id && js[0].need.publish then 1 else 0) + Owing(js[1..], id)
  }

  function OwingRetries(rs: seq<RetryEvent>, id: TraceId): (n: nat) {
    if rs == [] then 0 else
      (if rs[0].id == id && rs[0].need.publish then 1 else 0) + OwingRetries(rs[1..], id)
  }

  /** Hand work back to the shard; refused only once shutdown has begun. */
  function Retry(s: System, j: FlushJob, need: Need, lands: bool): (s': System) {
    if lands || !s.stopping then s.(retries := s.retries + [RetryEvent(j.id, j.reason, need, j.deadline)])
    else s.(refused := if need.publish then s.refused + multiset{j.id} else s.refused)
  }

  function Undecodable(frags: seq<nat>, c: Consumption): (bad: set<nat>) {
    set n | n in frags && n in c.undecodable
  }

  function Decodable(frags: seq<nat>, c: Consumption): (good: set<nat>) {
    set n | n in frags && n !in c.undecodable
  }

  /** Decode one job's fragments and offer what decoded to the next consumer. */
  function Consume(s: System, j: FlushJob, c: Consumption, lands: bool): (s': System) {
    if !j.need.flush || j.frags == [] then s else
      var bad, good := Undecodable(j.frags, c), Decodable(j.frags, c);
      var s1 := s.(dropped := s.dropped + bad);
      if good <= c.spanless then s1.(dropped := s1.dropped + good)
      else match c.verdict
        case Accepted => s1.(accepted := s.accepted + good)
        case Permanent => s1.(dropped := s1.dropped + good)
        case Retryable => Retry(s1, j, NEED_FLUSH, lands)
  }

  /** One job of a batch whose publishes have been answered. */
  function Handle(s: System, c: Consumption, lands: bool): (s': System)
    requires s.held != []
  {
    var j, rest := s.held[0], s.(held := s.held[1..]);
    if j.need.publish && j.id in s.failed then Retry(rest, j, j.need, lands)
    else Consume(rest, j, c, lands)
  }

  /** The bus answered: every publish of the batch not reported failed is acknowledged, once per trace. */
  function Publish(s: System, failed: set<TraceId>): (s': System) {
    var ids := PublishIds(s.held);
    var acked := ids - failed;
    s.(publishing := false, failed := ids * failed,
       acked := s.acked + multiset(acked),
       deduped := s.deduped + Duplicates(s.held, acked))
  }

  /** The publishes beyond the first for each acknowledged trace. */
  function Duplicates(js: seq<FlushJob>, ids: set<TraceId>): (m: multiset<TraceId>)
    ensures forall id :: m[id] == if id in ids && Owing(js, id) > 0 then Owing(js, id) - 1 else 0
  {
    if js == [] then multiset{} else
      var rest := Duplicates(js[1..], ids);
      if js[0].need.publish && js[0].id in ids && Owing(js[1..], js[0].id) > 0 then rest + multiset{js[0].id} else rest
  }

  /** One step; an event that is not enabled changes nothing. */
  function Step(s: System, window: int, e: Event): (s': System) {
    match e
    case Fragment(id, appended, room, now) =>
      s.(w := AppendFragment(s.w, s.nextFrag, id, appended, room, now + window), nextFrag := s.nextFrag + 1)
    case KeepVerdict(id, reason, origin, at, now, attempt) =>
      s.(w := Keep(s.w, id, reason, origin, at, now, window, attempt))
    case HandBack(i, now) =>
      if i >= |s.retries| then s else
        var r := s.retries[i];
        s.(w := Park(s.w, r.id, r.reason, r.need, r.deadline, now + window), retries := s.retries[..i] + s.retries[i + 1..])
    case Ticked(now, expired, attempts) =>
      s.(w := Tick(s.w, now, window, expired, attempts))
    case Sacrificed(expired) =>
      s.(w := s.w.(store := Keeping(s.w.store, expired)))
    case Gather(k) =>
      if s.held != [] || k == 0 || k > |s.w.jobs| then s else
        s.(held := s.w.jobs[..k], w := s.w.(jobs := s.w.jobs[k..]), publishing := true, failed := {})
    case Published(failed) =>
      if s.held == [] || !s.publishing then s else Publish(s, failed)
    case Handled(c, lands) =>
      if s.held == [] || s.publishing then s else Handle(s, c, lands)
    case Stop => s.(stopping := true)
  }

  const INITIAL := System(
    Worker(map[], [], [], [], [], {}, multiset{}, multiset{}, multiset{}, {}, 0, 0, 0, 0),
    [], false, {}, [], {}, {}, multiset{}, multiset{}, multiset{}, false, 0)

  function Run(window: int, events: seq<Event>): (s: System) {
    if events == [] then INITIAL else Step(Run(window, events[..|events| - 1]), window, events[|events| - 1])
  }
}
