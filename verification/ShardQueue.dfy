/** What the parked queue guarantees: order, membership, deadlines. */
module ShardQueue {
  import opened Types
  import opened DecidedSet
  import opened ShardModel
  import opened ShardRun

  ghost predicate NoDup(q: seq<TraceId>) {
    forall i, j :: 0 <= i < j < |q| ==> q[i] != q[j]
  }

  // ------------------------------------------------ queue slots and entries

  /** Every entry waits in line, whatever needs it carries. */
  ghost predicate InLine(w: Worker) {
    forall id :: id in w.pend ==> w.pend[id].queued && id in w.queue
  }

  /** Every intent owes a flush, and queue slots and entries correspond one to one. */
  ghost predicate Tidy(w: Worker) {
    && NoDup(w.queue)
    && (forall id :: id in w.queue <==> id in w.pend)
    && (forall id :: id in w.pend ==> w.pend[id].queued && w.pend[id].need.flush)
    && (forall j :: j in w.jobs ==> j.need.flush)
  }

  lemma ParkInLine(w: Worker, id: TraceId, reason: byte, need: Need, deadline: int, fallback: int)
    requires InLine(w)
    ensures InLine(Park(w, id, reason, need, deadline, fallback))
  {
    var w' := Park(w, id, reason, need, deadline, fallback);
    assert id in w'.queue by {
      if !ReqOf(w.pend, id).queued {
        assert w'.queue[|w.queue|] == id;
      }
    }
  }

  lemma ParkTidy(w: Worker, id: TraceId, reason: byte, need: Need, deadline: int, fallback: int)
    requires Tidy(w) && need.flush
    ensures Tidy(Park(w, id, reason, need, deadline, fallback))
  {
    var w' := Park(w, id, reason, need, deadline, fallback);
    if id !in w.pend {
      assert w'.queue == w.queue + [id];
      assert forall x :: x in w'.queue <==> x in w.queue || x == id;
    }
  }

  // ---------------------------------------------------------- merged parks

  /** One park of a trace; the fallback is the clock read for it, plus the window. */
  datatype Intent = Intent(reason: byte, need: Need, deadline: int, fallback: int)

  function ParkAll(w: Worker, id: TraceId, intents: seq<Intent>): (w': Worker) {
    if intents == [] then w
    else
      var n := |intents| - 1;
      Park(ParkAll(w, id, intents[..n]), id, intents[n].reason, intents[n].need, intents[n].deadline, intents[n].fallback)
  }

  /** The first nonzero reason. */
  function FirstReason(intents: seq<Intent>): (reason: byte) {
    if intents == [] then 0 else if intents[0].reason != 0 then intents[0].reason else FirstReason(intents[1..])
  }

  /** The deadline of the first publish; one that comes without gets its fallback. */
  function FirstDeadline(intents: seq<Intent>): (deadline: int) {
    if intents == [] then 0
    else if intents[0].need.publish && intents[0].deadline != 0 then intents[0].deadline
    else if intents[0].need.publish && intents[0].fallback != 0 then intents[0].fallback
    else FirstDeadline(intents[1..])
  }

  lemma {:induction false} FirstOfNext(intents: seq<Intent>, i: Intent)
    ensures FirstReason(intents + [i]) == if FirstReason(intents) != 0 then FirstReason(intents) else i.reason
    ensures FirstDeadline(intents + [i])
         == if FirstDeadline(intents) != 0 then FirstDeadline(intents)
            else if i.need.publish then (if i.deadline != 0 then i.deadline else i.fallback) else 0
  {
    if intents == [] {
      assert [i][1..] == [];
    } else {
      assert (intents + [i])[1..] == intents[1..] + [i];
      FirstOfNext(intents[1..], i);
    }
  }

  ghost predicate AnyPublish(intents: seq<Intent>) { exists k :: 0 <= k < |intents| && intents[k].need.publish }

  ghost predicate AnyFlush(intents: seq<Intent>) { exists k :: 0 <= k < |intents| && intents[k].need.flush }

  lemma AnyOfNext(intents: seq<Intent>, i: Intent)
    ensures AnyPublish(intents + [i]) <==> AnyPublish(intents) || i.need.publish
    ensures AnyFlush(intents + [i]) <==> AnyFlush(intents) || i.need.flush
  {
    var more := intents + [i];
    assert more[|intents|] == i;
    assert forall k :: 0 <= k < |intents| ==> more[k] == intents[k];
  }

  /** The entry these intents leave. */
  ghost predicate MergedEntry(r: PendReq, intents: seq<Intent>) {
    && r.queued
    && r.reason == FirstReason(intents)
    && r.deadline == FirstDeadline(intents)
    && (r.need.publish <==> AnyPublish(intents))
    && (r.need.flush <==> AnyFlush(intents))
  }

  lemma MergeNext(r: PendReq, intents: seq<Intent>, i: Intent)
    requires MergedEntry(r, intents) || (intents == [] && r == NO_REQ)
    ensures MergedEntry(Merge(r, i.reason, i.need, i.deadline, i.fallback), intents + [i])
  {
    hide AnyPublish, AnyFlush, FirstReason, FirstDeadline;
    FirstOfNext(intents, i);
    AnyOfNext(intents, i);
    NoIntents();
  }

  lemma NoIntents()
    ensures FirstReason([]) == 0 && FirstDeadline([]) == 0 && !AnyPublish([]) && !AnyFlush([])
  {
  }

  /**
   However many intents of one trace are parked on top of each other: the entry
   owes all their needs, the first nonzero reason wins, the first publish's
   deadline holds, and the trace keeps the one place in line it took first.
   */
  lemma {:induction false} ParksMerge(w: Worker, id: TraceId, intents: seq<Intent>)
    requires id !in w.pend && intents != []
    ensures var w' := ParkAll(w, id, intents);
            && w'.queue == w.queue + [id]
            && w'.pend - {id} == w.pend
            && id in w'.pend && MergedEntry(w'.pend[id], intents)
  {
    hide MergedEntry, Merge;
    var n := |intents| - 1;
    var v := ParkAll(w, id, intents[..n]);
    assert intents == intents[..n] + [intents[n]];
    if n > 0 {
      ParksMerge(w, id, intents[..n]);
      QueuedOnce(v.pend[id], intents[..n]);
    }
    MergeNext(ReqOf(v.pend, id), intents[..n], intents[n]);
  }

  lemma QueuedOnce(r: PendReq, intents: seq<Intent>)
    requires MergedEntry(r, intents)
    ensures r.queued
  {
  }

  /** Popping the head of the line with its entry. */
  lemma PopTidy(w: Worker)
    requires Tidy(w) && w.queue != []
    ensures w.queue[0] in w.pend && w.pend[w.queue[0]].need.flush
    ensures Tidy(w.(queue := w.queue[1..], pend := w.pend - {w.queue[0]}))
  {
    var id, rest := w.queue[0], w.queue[1..];
    assert id in w.queue;
    forall x
      ensures x in rest <==> x in w.queue && x != id
    {
      if x in w.queue && x != id {
        var i :| 0 <= i < |w.queue| && w.queue[i] == x;
        assert rest[i - 1] == x;
      }
    }
  }

  lemma DischargeTidy(w: Worker, id: TraceId, reason: byte, need: Need, deadline: int, a: Attempt)
    requires Tidy(w) && need.flush
    ensures Tidy(Discharge(w, id, reason, need, deadline, a))
  {
  }

  lemma SweepTidy(w: Worker, now: int)
    requires Tidy(w)
    ensures Tidy(Sweep(w, now))
    ensures Sweep(w, now).queue == w.queue
  {
  }

  lemma ReplayTidy(w: Worker, window: int, a: Attempt)
    requires Tidy(w) && w.queue != []
    ensures Tidy(Replay(w, window, a))
  {
    hide Try, Tidy, Park, Discharge;
    PopTidy(w);
    var id, req := w.queue[0], w.pend[w.queue[0]];
    var gone := w.(queue := w.queue[1..], pend := w.pend - {id});
    ParkTidy(gone, id, req.reason, req.need, req.deadline, a.clock + window);
    DischargeTidy(gone, id, req.reason, req.need, req.deadline, a);
  }

  lemma ReplayInLine(w: Worker, window: int, a: Attempt)
    requires InLine(w) && w.queue != []
    ensures InLine(Replay(w, window, a))
  {
    hide Try;
    var id, rest := w.queue[0], w.queue[1..];
    forall x | x in w.pend && x != id
      ensures x in rest
    {
      var i :| 0 <= i < |w.queue| && w.queue[i] == x;
      assert rest[i - 1] == x;
    }
    if id in w.pend {
      var req := w.pend[id];
      ParkInLine(w.(queue := rest, pend := w.pend - {id}), id, req.reason, req.need, req.deadline, a.clock + window);
    }
  }

  // ----------------------------------------------------- one drain pass

  /** What replaying one intent keeps, a whole pass keeps. */
  lemma {:induction false} DrainKeeps(inv: Worker -> bool, w: Worker, n: nat, window: int, attempts: nat -> Attempt)
    requires n <= |w.queue| && inv(w)
    requires forall v: Worker, a: Attempt :: v.queue != [] && !Gated(v, a) && inv(v) ==> inv(Replay(v, window, a))
    ensures inv(Drain(w, n, window, attempts))
    decreases n
  {
    if n > 0 && !Gated(w, attempts(n)) {
      DrainKeeps(inv, Replay(w, window, attempts(n)), n - 1, window, attempts);
    }
  }

  /** The worker after `i` replays of a pass over `n` intents. */
  function Mid(w: Worker, n: nat, window: int, attempts: nat -> Attempt, i: nat): (m: Worker)
    requires i <= n <= |w.queue|
    ensures |m.queue| >= |w.queue| - i
  {
    if i == 0 then w
    else Replay(Mid(w, n, window, attempts, i - 1), window, attempts(n - i + 1))
  }

  /** Whether the replay at the head of the line meets a read failure. */
  predicate ReadFails(w: Worker, a: Attempt)
    requires w.queue != []
  {
    var id := w.queue[0];
    id in w.pend && w.pend[id].need != NO_NEED && Try(w.store, id, w.pend[id].need, a).CollectErr?
  }

  /** The ids whose replay failed to read, among the first `i`, in order. */
  function ReadFailed(w: Worker, n: nat, window: int, attempts: nat -> Attempt, i: nat): (ids: seq<TraceId>)
    requires i <= n <= |w.queue|
  {
    if i == 0 then []
    else
      var m := Mid(w, n, window, attempts, i - 1);
      ReadFailed(w, n, window, attempts, i - 1) + (if ReadFails(m, attempts(n - i + 1)) then [m.queue[0]] else [])
  }

  /** Each replay removes the head and sends only a read failure to the back. */
  lemma ReplayQueue(w: Worker, window: int, a: Attempt)
    requires w.queue != []
    ensures Replay(w, window, a).queue == w.queue[1..] + (if ReadFails(w, a) then [w.queue[0]] else [])
    ensures Replay(w, window, a).store == w.store
  {
    hide Try;
  }

  lemma MidStep(w: Worker, n: nat, window: int, attempts: nat -> Attempt, i: nat)
    requires 0 < i <= n <= |w.queue|
    ensures var m, a := Mid(w, n, window, attempts, i - 1), attempts(n - i + 1);
            && Mid(w, n, window, attempts, i) == Replay(m, window, a)
            && ReadFailed(w, n, window, attempts, i)
            == ReadFailed(w, n, window, attempts, i - 1) + if ReadFails(m, a) then [m.queue[0]] else []
  {
    hide Replay, ReadFails;
  }

  lemma {:induction false} MidQueue(w: Worker, n: nat, window: int, attempts: nat -> Attempt, i: nat)
    requires i <= n <= |w.queue|
    ensures Mid(w, n, window, attempts, i).queue == w.queue[i..] + ReadFailed(w, n, window, attempts, i)
    ensures Mid(w, n, window, attempts, i).store == w.store
  {
    hide Replay, ReadFails;
    if i == 0 {
      assert w.queue[0..] + [] == w.queue;
    } else {
      hide Mid, ReadFailed;
      MidStep(w, n, window, attempts, i);
      MidQueue(w, n, window, attempts, i - 1);
      var m, failed, a := Mid(w, n, window, attempts, i - 1), ReadFailed(w, n, window, attempts, i - 1), attempts(n - i + 1);
      ReplayQueue(m, window, a);
      PopAppend(w.queue, i - 1, m.queue, failed, if ReadFails(m, a) then [m.queue[0]] else []);
    }
  }

  lemma PopAppend(q: seq<TraceId>, i: nat, mid: seq<TraceId>, failed: seq<TraceId>, more: seq<TraceId>)
    requires i < |q| && mid == q[i..] + failed
    ensures mid[0] == q[i]
    ensures mid[1..] + more == q[i + 1..] + (failed + more)
  {
    assert mid[1..] == q[i + 1..] + failed;
  }

  /** Whether the pass is stopped by a full channel before replay `i`. */
  predicate Stops(w: Worker, n: nat, window: int, attempts: nat -> Attempt, i: nat)
    requires i < n <= |w.queue|
  {
    Gated(Mid(w, n, window, attempts, i), attempts(n - i))
  }

  /** How many intents a pass disposes of. */
  function Reach(w: Worker, n: nat, window: int, attempts: nat -> Attempt, i: nat): (k: nat)
    requires i <= n <= |w.queue|
    ensures i <= k <= n
    ensures forall j :: i <= j < k ==> !Stops(w, n, window, attempts, j)
    ensures k < n ==> Stops(w, n, window, attempts, k)
    decreases n - i
  {
    if i == n || Stops(w, n, window, attempts, i) then i else Reach(w, n, window, attempts, i + 1)
  }

  lemma {:induction false} DrainFromMid(w: Worker, n: nat, window: int, attempts: nat -> Attempt, i: nat)
    requires i <= n <= |w.queue|
    ensures Drain(Mid(w, n, window, attempts, i), n - i, window, attempts)
         == Mid(w, n, window, attempts, Reach(w, n, window, attempts, i))
    decreases n - i
  {
    hide Replay, Gated, Mid, ReadFailed, ReadFails;
    if i < n && !Stops(w, n, window, attempts, i) {
      MidStep(w, n, window, attempts, i + 1);
      DrainFromMid(w, n, window, attempts, i + 1);
    }
  }

  /**
   One drain pass turns the line into a suffix of itself followed by its
   read-failed ids in order. The channel is found full at most once: only the
   intent at the new head can have met it.
   */
  lemma DrainShape(w: Worker, n: nat, window: int, attempts: nat -> Attempt)
    requires n <= |w.queue|
    ensures var k := Reach(w, n, window, attempts, 0);
            && Drain(w, n, window, attempts) == Mid(w, n, window, attempts, k)
            && Drain(w, n, window, attempts).queue == w.queue[k..] + ReadFailed(w, n, window, attempts, k)
            && (k < n ==> Drain(w, n, window, attempts).queue[0] == w.queue[k])
  {
    hide Drain, ReadFailed, Replay, Reach;
    var k := Reach(w, n, window, attempts, 0);
    DrainFromMid(w, n, window, attempts, 0);
    MidQueue(w, n, window, attempts, k);
  }

  ghost predicate SameEntry(a: Worker, b: Worker, id: TraceId) {
    && (id in a.pend <==> id in b.pend)
    && (id in a.pend ==> a.pend[id] == b.pend[id])
  }

  lemma ReplayTouchesHead(w: Worker, window: int, a: Attempt, id: TraceId)
    requires w.queue != [] && id != w.queue[0]
    ensures SameEntry(Replay(w, window, a), w, id)
  {
    hide Try;
  }

  lemma {:induction false} MidTidy(w: Worker, n: nat, window: int, attempts: nat -> Attempt, i: nat)
    requires Tidy(w) && i <= n <= |w.queue|
    ensures Tidy(Mid(w, n, window, attempts, i))
  {
    hide Tidy, Replay, ReadFailed, ReadFails;
    if i > 0 {
      MidTidy(w, n, window, attempts, i - 1);
      ReplayTidy(Mid(w, n, window, attempts, i - 1), window, attempts(n - i + 1));
    }
  }

  /** With slots and entries one to one, the intents a pass has not reached are untouched. */
  lemma {:induction false} MidUnreached(w: Worker, n: nat, window: int, attempts: nat -> Attempt, i: nat, j: nat)
    requires Tidy(w) && i <= n <= |w.queue| && i <= j < |w.queue|
    ensures SameEntry(Mid(w, n, window, attempts, i), w, w.queue[j])
  {
    hide Tidy, Replay, ReadFailed, ReadFails;
    if i > 0 {
      var m := Mid(w, n, window, attempts, i - 1);
      MidStep(w, n, window, attempts, i);
      MidUnreached(w, n, window, attempts, i - 1, j);
      MidQueue(w, n, window, attempts, i - 1);
      PopAppend(w.queue, i - 1, m.queue, ReadFailed(w, n, window, attempts, i - 1), []);
      TidyDistinct(w);
      ReplayTouchesHead(m, window, attempts(n - i + 1), w.queue[j]);
    }
  }

  lemma TidyDistinct(w: Worker)
    requires Tidy(w)
    ensures NoDup(w.queue)
    ensures forall i :: 0 <= i < |w.queue| ==> w.queue[i] in w.pend
  {
  }

  /**
   With slots and entries one to one, replay `j` of a pass serves intent `j` of
   the line as the pass found it, no trace is served twice, and what is left
   parked is the unreached suffix and the read-failed.
   */
  lemma OneAttemptEach(w: Worker, n: nat, window: int, attempts: nat -> Attempt)
    requires Tidy(w) && n <= |w.queue|
    ensures NoDup(w.queue)
    ensures Tidy(Drain(w, n, window, attempts))
    ensures forall j :: 0 <= j < n ==>
      && Mid(w, n, window, attempts, j).queue[0] == w.queue[j] && w.queue[j] in w.pend
      && SameEntry(Mid(w, n, window, attempts, j), w, w.queue[j])
    ensures forall id :: id in Drain(w, n, window, attempts).pend <==>
      id in w.queue[Reach(w, n, window, attempts, 0)..] || id in ReadFailed(w, n, window, attempts, Reach(w, n, window, attempts, 0))
  {
    hide Drain, ReadFailed, Replay, Mid, Tidy;
    TidyDistinct(w);
    DrainShape(w, n, window, attempts);
    var k := Reach(w, n, window, attempts, 0);
    MidTidy(w, n, window, attempts, k);
    TidySlots(Drain(w, n, window, attempts));
    forall j | 0 <= j < n
      ensures Mid(w, n, window, attempts, j).queue[0] == w.queue[j]
      ensures SameEntry(Mid(w, n, window, attempts, j), w, w.queue[j])
    {
      MidQueue(w, n, window, attempts, j);
      MidUnreached(w, n, window, attempts, j, j);
    }
  }

  lemma TidySlots(w: Worker)
    requires Tidy(w)
    ensures forall id :: id in w.queue <==> id in w.pend
  {
  }

  /** Whatever needs the intents carry, a pass leaves every one of them in line. */
  lemma DrainInLine(w: Worker, n: nat, window: int, attempts: nat -> Attempt)
    requires InLine(w) && n <= |w.queue|
    ensures InLine(Drain(w, n, window, attempts))
  {
    hide InLine, Drain, Replay, Gated;
    var inv := (v: Worker) => InLine(v);
    forall v: Worker, a: Attempt | v.queue != [] && !Gated(v, a) && inv(v)
      ensures inv(Replay(v, window, a))
    {
      ReplayInLine(v, window, a);
    }
    DrainKeeps(inv, w, n, window, attempts);
  }

  lemma DrainTidy(w: Worker, n: nat, window: int, attempts: nat -> Attempt)
    requires Tidy(w) && n <= |w.queue|
    ensures Tidy(Drain(w, n, window, attempts))
  {
    hide Tidy, Drain, Replay, Gated;
    var inv := (v: Worker) => Tidy(v);
    forall v: Worker, a: Attempt | v.queue != [] && !Gated(v, a) && inv(v)
      ensures inv(Replay(v, window, a))
    {
      ReplayTidy(v, window, a);
    }
    DrainKeeps(inv, w, n, window, attempts);
  }

  // ---------------------------------------------------------- whole runs

  /** Jobs and retries owe a flush wherever they travel, and the parked queue is tidy. */
  ghost predicate SystemTidy(s: System) {
    && Tidy(s.w)
    && (forall j :: j in s.held ==> j.need.flush)
    && (forall r :: r in s.retries ==> r.need.flush)
  }

  lemma AgedTidy(w: Worker, store: seq<Stored>, dec: seq<Entry>)
    requires Tidy(w)
    ensures Tidy(w.(store := store, dec := dec))
  {
  }

  lemma TickTidy(w: Worker, now: int, window: int, expired: set<nat>, attempts: nat -> Attempt)
    requires Tidy(w)
    ensures Tidy(Tick(w, now, window, expired, attempts))
  {
    hide Sweep, Drain;
    var aged := w.(store := Keeping(w.store, expired), dec := w.dec[ExpiredPrefix(w.dec, now)..]);
    SweepTidy(aged, now);
    DrainTidy(Sweep(aged, now), |Sweep(aged, now).queue|, window, attempts);
  }

  lemma KeepTidy(w: Worker, id: TraceId, reason: byte, origin: Origin, at: int, now: int, window: int, a: Attempt)
    requires Tidy(w)
    ensures Tidy(Keep(w, id, reason, origin, at, now, window, a))
  {
    hide Park, Discharge, Try;
    if !Holds(w.dec, id) {
      var deadline := Clamp(at, now) + window;
      var decided := Decide(w, id, origin, deadline);
      ParkTidy(decided, id, reason, Need(origin.Local?, true), deadline, a.clock + window);
      DischargeTidy(decided, id, reason, Need(origin.Local?, true), deadline, a);
    }
  }

  lemma AppendTidy(w: Worker, n: nat, id: TraceId, appended: bool, room: bool, fallback: int)
    requires Tidy(w)
    ensures Tidy(AppendFragment(w, n, id, appended, room, fallback))
  {
    hide Holds, Park;
    if appended {
      ParkTidy(w.(store := w.store + [Stored(n, id)]), id, 0, NEED_FLUSH, 0, fallback);
    }
  }

  lemma GatherTidy(s: System, window: int, k: nat)
    requires SystemTidy(s)
    ensures SystemTidy(Step(s, window, Gather(k)))
  {
    if s.held == [] && 0 < k <= |s.w.jobs| {
      assert forall j :: j in s.w.jobs[k..] ==> j in s.w.jobs;
      assert forall j :: j in s.w.jobs[..k] ==> j in s.w.jobs;
    }
  }

  lemma HandleTidy(s: System, c: Consumption, lands: bool)
    requires SystemTidy(s) && s.held != []
    ensures SystemTidy(Handle(s, c, lands))
  {
    hide Tidy;
    assert s.held[0] in s.held;
    assert forall x :: x in s.held[1..] ==> x in s.held;
    HandleLedger(s, c, lands);
  }

  /** Which accounts handling one job moves: a failed publish to the retries or the refused, else none. */
  lemma HandleLedger(s: System, c: Consumption, lands: bool)
    requires s.held != []
    ensures var s', j := Handle(s, c, lands), s.held[0];
            && s'.w == s.w && s'.held == s.held[1..] && s'.acked == s.acked && s'.deduped == s.deduped
            && s'.publishing == s.publishing && s'.failed == s.failed && s'.stopping == s.stopping
            && if j.need.publish && j.id in s.failed then
                 if lands || !s.stopping then s'.refused == s.refused && s'.retries == s.retries + [RetryEvent(j.id, j.reason, j.need, j.deadline)]
                 else s'.refused == s.refused + multiset{j.id} && s'.retries == s.retries
               else
                 s'.refused == s.refused
                 && (s'.retries == s.retries || s'.retries == s.retries + [RetryEvent(j.id, j.reason, NEED_FLUSH, j.deadline)])
  {
    hide Consume;
    ConsumeShape(s.(held := s.held[1..]), s.held[0], c, lands);
  }

  /** Consuming a job settles fragments and can hand back no more than its flush. */
  lemma ConsumeShape(s: System, j: FlushJob, c: Consumption, lands: bool)
    ensures var s' := Consume(s, j, c, lands);
            && s' == s.(accepted := s'.accepted, dropped := s'.dropped, retries := s'.retries)
            && (s'.retries == s.retries || s'.retries == s.retries + [RetryEvent(j.id, j.reason, NEED_FLUSH, j.deadline)])
  {
  }

  lemma HandleFrame(s: System, c: Consumption, lands: bool)
    requires s.held != []
    ensures Handle(s, c, lands).w == s.w && Handle(s, c, lands).stopping == s.stopping
  {
    hide Consume;
    ConsumeShape(s.(held := s.held[1..]), s.held[0], c, lands);
  }

  lemma HandBackTidy(s: System, window: int, i: nat, now: int)
    requires SystemTidy(s)
    ensures SystemTidy(Step(s, window, HandBack(i, now)))
  {
    hide Tidy, Park;
    if i < |s.retries| {
      var r := s.retries[i];
      assert r in s.retries;
      ParkTidy(s.w, r.id, r.reason, r.need, r.deadline, now + window);
      assert forall x :: x in s.retries[..i] + s.retries[i + 1..] ==> x in s.retries;
    }
  }

  lemma PublishFrame(s: System, failed: set<TraceId>)
    ensures var s' := Publish(s, failed); s'.w == s.w && s'.held == s.held && s'.retries == s.retries
  {
  }

  lemma StepTidy(s: System, window: int, e: Event)
    requires SystemTidy(s)
    ensures SystemTidy(Step(s, window, e))
  {
    hide Tidy, Handle, Publish, Tick, Keep, AppendFragment, Park;
    match e
    case Fragment(id, appended, room, now) => AppendTidy(s.w, s.nextFrag, id, appended, room, now + window);
    case KeepVerdict(id, reason, origin, at, now, attempt) => KeepTidy(s.w, id, reason, origin, at, now, window, attempt);
    case HandBack(i, now) => HandBackTidy(s, window, i, now);
    case Ticked(now, expired, attempts) => TickTidy(s.w, now, window, expired, attempts);
    case Sacrificed(expired) => AgedTidy(s.w, Keeping(s.w.store, expired), s.w.dec);
    case Gather(k) => GatherTidy(s, window, k);
    case Published(failed) => PublishFrame(s, failed);
    case Handled(c, lands) => if s.held != [] { HandleTidy(s, c, lands); }
    case Stop =>
  }

  /** In every run, every intent owes a flush and queue slots and entries correspond one to one. */
  lemma {:induction false} RunTidy(window: int, events: seq<Event>)
    ensures SystemTidy(Run(window, events))
  {
    hide Step;
    if events != [] {
      hide SystemTidy;
      RunTidy(window, events[..|events| - 1]);
      StepTidy(Run(window, events[..|events| - 1]), window, events[|events| - 1]);
    }
  }
}
