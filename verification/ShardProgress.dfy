/**
 What the flush machine gets done: which attempts send a job and what that job
 carries, what is parked and what is left alone, and that a tick which meets
 neither a full channel nor a read error leaves nothing parked.
 */
module ShardProgress {
  import opened Types
  import opened DecidedSet
  import opened ShardModel
  import opened ShardQueue
  import opened ShardRun
  import opened ShardDeadlines
  import opened ShardDecisions
  import opened ShardDelivery

  /** A fragment of the trace is on disk and not corrupt. */
  ghost predicate HasReadable(store: seq<Stored>, id: TraceId, corrupt: set<nat>) {
    exists n: nat :: Stored(n, id) in store && n !in corrupt
  }

  /** These numbers are those of the trace's stored fragments that are not corrupt. */
  ghost predicate Carries(frags: seq<nat>, store: seq<Stored>, id: TraceId, corrupt: set<nat>) {
    forall n: nat :: n in frags <==> Stored(n, id) in store && n !in corrupt
  }

  ghost predicate Increasing(ns: seq<nat>) {
    forall i, j :: 0 <= i < j < |ns| ==> ns[i] < ns[j]
  }

  lemma CollectedCarries(store: seq<Stored>, id: TraceId, corrupt: set<nat>)
    ensures Carries(Readable(store, id, corrupt), store, id, corrupt)
    ensures HasReadable(store, id, corrupt) <==> Readable(store, id, corrupt) != []
  {
    forall n: nat
      ensures n in Readable(store, id, corrupt) <==> Stored(n, id) in store && n !in corrupt
    {
      ReadableExactly(store, id, corrupt, n);
    }
    var ns := Readable(store, id, corrupt);
    if ns != [] {
      assert ns[0] in ns;
      assert Stored(ns[0], id) in store && ns[0] !in corrupt;
    }
  }

  /** Fragments are collected in the order they were appended. */
  lemma {:induction false} CollectedIncreases(store: seq<Stored>, id: TraceId, corrupt: set<nat>, bound: nat)
    requires Numbered(store, bound)
    ensures Increasing(Readable(store, id, corrupt))
  {
    if store != [] {
      var m := |store| - 1;
      CollectedIncreases(store[..m], id, corrupt, bound);
      var rest := Readable(store[..m], id, corrupt);
      forall i | 0 <= i < |rest|
        ensures rest[i] < store[m].n
      {
        ReadableExactly(store[..m], id, corrupt, rest[i]);
        assert rest[i] in rest;
        var k :| 0 <= k < m && store[..m][k] == Stored(rest[i], id);
      }
    }
  }

  /** The channel has gained one job, this one, holding everything readable of its trace in order. */
  ghost predicate SentOne(w: Worker, w': Worker, id: TraceId, reason: byte, need: Need, deadline: int, corrupt: set<nat>, bound: nat) {
    && w'.pend == w.pend && w'.queue == w.queue
    && |w'.jobs| == |w.jobs| + 1 && w'.jobs[..|w.jobs|] == w.jobs
    && IsJob(w'.jobs[|w.jobs|], w.store, id, reason, need, deadline, corrupt)
    && (Numbered(w.store, bound) ==> Increasing(w'.jobs[|w.jobs|].frags))
  }

  ghost predicate IsJob(j: FlushJob, store: seq<Stored>, id: TraceId, reason: byte, need: Need, deadline: int, corrupt: set<nat>) {
    && j.id == id && j.reason == reason && j.need == need && j.deadline == deadline
    && Carries(j.frags, store, id, corrupt)
  }

  /** The numbers an attempt that read to the end has skipped as corrupt. */
  ghost predicate SkippedCorrupt(w: Worker, w': Worker, id: TraceId, corrupt: set<nat>) {
    forall n: nat :: n in w'.lost <==> n in w.lost || (Stored(n, id) in w.store && n in corrupt)
  }

  /**
   An attempt that can read and has room sends exactly one job if the trace owes
   a publish or has a readable fragment, and otherwise does nothing.
   */
  lemma RoomSends(w: Worker, id: TraceId, reason: byte, need: Need, deadline: int, fallback: int, a: Attempt, bound: nat)
    requires !a.readError && (a.room || !(need.publish || HasReadable(w.store, id, a.corrupt)))
    ensures var w' := CollectAndSend(w, id, reason, need, deadline, fallback, a);
            && SkippedCorrupt(w, w', id, a.corrupt)
            && if need.publish || HasReadable(w.store, id, a.corrupt)
               then SentOne(w, w', id, reason, need, deadline, a.corrupt, bound)
               else w'.pend == w.pend && w'.queue == w.queue && w'.jobs == w.jobs
  {
    hide Readable, HasReadable, Carries, Increasing, Numbered;
    CollectedCarries(w.store, id, a.corrupt);
    if Numbered(w.store, bound) {
      CollectedIncreases(w.store, id, a.corrupt, bound);
    }
    DischargeSkips(w, id, reason, need, deadline, a);
  }

  lemma DischargeSkips(w: Worker, id: TraceId, reason: byte, need: Need, deadline: int, a: Attempt)
    ensures SkippedCorrupt(w, Discharge(w, id, reason, need, deadline, a), id, a.corrupt)
  {
    hide Try;
    forall n: nat
      ensures n in Discharge(w, id, reason, need, deadline, a).lost <==> n in w.lost || (Stored(n, id) in w.store && n in a.corrupt)
    {
      if Stored(n, id) in w.store && n in a.corrupt {
        assert Stored(n, id).n == n;
      }
    }
  }

  /** An attempt that cannot read, or finds the channel full with something to send, parks the whole intent and sends nothing. */
  lemma OtherwiseParks(w: Worker, id: TraceId, reason: byte, need: Need, deadline: int, fallback: int, a: Attempt)
    requires a.readError || (!a.room && (need.publish || HasReadable(w.store, id, a.corrupt)))
    ensures var w' := CollectAndSend(w, id, reason, need, deadline, fallback, a);
            && w'.jobs == w.jobs && w'.lost == w.lost
            && ParkedWhole(w, w', id, reason, need, deadline, fallback)
  {
    hide Readable, HasReadable, Carries;
    CollectedCarries(w.store, id, a.corrupt);
  }

  /** The entry owes what it owed and what was parked, in the place in line it had or else the last. */
  ghost predicate ParkedWhole(w: Worker, w': Worker, id: TraceId, reason: byte, need: Need, deadline: int, fallback: int) {
    && id in w'.pend && w'.pend - {id} == w.pend - {id}
    && (id !in w.pend ==>
          && w'.queue == w.queue + [id]
          && w'.pend[id].reason == reason && w'.pend[id].need == need
          && (need.publish ==> w'.pend[id].deadline == if deadline != 0 then deadline else fallback))
    && (id in w.pend ==>
          && w'.queue == w.queue + (if w.pend[id].queued then [] else [id])
          && w'.pend[id].reason == (if w.pend[id].reason != 0 then w.pend[id].reason else reason)
          && w'.pend[id].need == Or(w.pend[id].need, need))
  }

  // ------------------------------------------------------------ run steps

  /**
   A keep that decides its trace in any run: with room and no read error its job
   is in the channel at once if it is a local verdict or anything of the trace
   is readable, and only then.
   */
  lemma DecidingKeepSends(window: int, events: seq<Event>, i: nat)
    requires Fresh(window, events, i) && !events[i].attempt.readError && events[i].attempt.room
    ensures var s, s', e := Run(window, events[..i]), Run(window, events[..i + 1]), events[i];
            if e.origin.Local? || HasReadable(s.w.store, e.id, e.attempt.corrupt)
            then SentOne(s.w, s'.w, e.id, e.reason, Need(e.origin.Local?, true), DeadlineOf(e, window), e.attempt.corrupt, s.nextFrag)
                 && Increasing(s'.w.jobs[|s.w.jobs|].frags)
            else s'.w.jobs == s.w.jobs && s'.w.pend == s.w.pend && s'.w.queue == s.w.queue
  {
    hide Run, CollectAndSend, HasReadable, IsJob, Increasing, Numbered, Holds;
    var s, e := Run(window, events[..i]), events[i];
    RunPrefix(window, events, i);
    NumbersAreUnique(window, events[..i]);
    var decided := Decide(s.w, e.id, e.origin, DeadlineOf(e, window));
    RoomSends(decided, e.id, e.reason, Need(e.origin.Local?, true), DeadlineOf(e, window), e.attempt.clock + window, e.attempt, s.nextFrag);
  }

  /** An attempt that fails: the deciding keep is parked whole. */
  lemma DecidingKeepParks(window: int, events: seq<Event>, i: nat)
    requires Fresh(window, events, i)
    requires var e, s := events[i], Run(window, events[..i]);
             e.attempt.readError || (!e.attempt.room && (e.origin.Local? || HasReadable(s.w.store, e.id, e.attempt.corrupt)))
    ensures var s, s', e := Run(window, events[..i]), Run(window, events[..i + 1]), events[i];
            && s'.w.jobs == s.w.jobs
            && ParkedWhole(s.w, s'.w, e.id, e.reason, Need(e.origin.Local?, true), DeadlineOf(e, window), e.attempt.clock + window)
  {
    hide Run, CollectAndSend, HasReadable, Holds;
    var s, e := Run(window, events[..i]), events[i];
    RunPrefix(window, events, i);
    var decided := Decide(s.w, e.id, e.origin, DeadlineOf(e, window));
    OtherwiseParks(decided, e.id, e.reason, Need(e.origin.Local?, true), DeadlineOf(e, window), e.attempt.clock + window, e.attempt);
  }

  /**
   An arriving fragment that got on disk reaches the flusher exactly if its trace
   is decided: at once as a job of its own when the channel has room, as a parked
   flush otherwise. One that did not leaves the shard as it was.
   */
  lemma FragmentForwarded(s: System, window: int, id: TraceId, room: bool, now: int)
    ensures var s' := Step(s, window, Fragment(id, true, room, now));
            && s'.w.store == s.w.store + [Stored(s.nextFrag, id)]
            && s'.w.jobs == s.w.jobs + (if Holds(s.w.dec, id) && room then [FlushJob(id, 0, NEED_FLUSH, [s.nextFrag], 0)] else [])
            && if Holds(s.w.dec, id) && !room then ParkedWhole(s.w, s'.w, id, 0, NEED_FLUSH, 0, now + window)
               else s'.w.pend == s.w.pend && s'.w.queue == s.w.queue
    ensures Step(s, window, Fragment(id, false, room, now)).w == s.w
  {
    hide Holds;
  }

  // ---------------------------------------------------------------- ticks

  /** Every attempt of the pass can read and finds room. */
  ghost predicate Unhindered(attempts: nat -> Attempt) {
    forall k :: !attempts(k).readError && attempts(k).room
  }

  /** The intent has something to send. */
  ghost predicate Due(w: Worker, id: TraceId, corrupt: set<nat>) {
    id in w.pend && (w.pend[id].need.publish || HasReadable(w.store, id, corrupt))
  }

  /** One unhindered replay: the head leaves the line, with its job sent if it had anything to send. */
  lemma ReplaySends(w: Worker, window: int, a: Attempt)
    requires Tidy(w) && w.queue != [] && !a.readError && a.room
    ensures var w', id := Replay(w, window, a), w.queue[0];
            && id in w.pend && !Gated(w, a)
            && w'.pend == w.pend - {id} && w'.queue == w.queue[1..] && w'.store == w.store
            && if Due(w, id, a.corrupt) then
                 && |w'.jobs| == |w.jobs| + 1 && w'.jobs[..|w.jobs|] == w.jobs
                 && IsJob(w'.jobs[|w.jobs|], w.store, id, w.pend[id].reason, w.pend[id].need, w.pend[id].deadline, a.corrupt)
               else w'.jobs == w.jobs
  {
    hide Tidy, Readable, HasReadable, Carries;
    TidyHead(w);
    CollectedCarries(w.store, w.queue[0], a.corrupt);
  }

  /** Job `j` is the one owed to the trace at position `p` of the line. */
  ghost predicate JobOf(j: FlushJob, w: Worker, p: nat, attempts: nat -> Attempt)
    requires p < |w.queue|
  {
    var id := w.queue[p];
    id in w.pend && IsJob(j, w.store, id, w.pend[id].reason, w.pend[id].need, w.pend[id].deadline, attempts(|w.queue| - p).corrupt)
  }

  /** The positions among the first `i` in line whose intent has something to send, in order. */
  ghost function DueUpTo(w: Worker, i: nat, attempts: nat -> Attempt): (ps: seq<nat>)
    requires i <= |w.queue|
    ensures forall x :: 0 <= x < |ps| ==> ps[x] < i
    ensures forall x, y :: 0 <= x < y < |ps| ==> ps[x] < ps[y]
  {
    if i == 0 then []
    else DueUpTo(w, i - 1, attempts) + if Due(w, w.queue[i - 1], attempts(|w.queue| - (i - 1)).corrupt) then [i - 1] else []
  }

  lemma {:induction false} DueExactly(w: Worker, i: nat, attempts: nat -> Attempt, p: nat)
    requires p < i <= |w.queue|
    ensures p in DueUpTo(w, i, attempts) <==> Due(w, w.queue[p], attempts(|w.queue| - p).corrupt)
  {
    hide Due;
    if p < i - 1 {
      DueExactly(w, i - 1, attempts, p);
    }
  }

  /** The jobs sent are those of the due intents among the first `i` in line, one each and in line order. */
  ghost predicate Served(w: Worker, sent: seq<FlushJob>, i: nat, attempts: nat -> Attempt)
    requires i <= |w.queue|
  {
    && |sent| == |DueUpTo(w, i, attempts)|
    && forall x :: 0 <= x < |sent| ==> JobOf(sent[x], w, DueUpTo(w, i, attempts)[x], attempts)
  }

  lemma ServeNext(w: Worker, sent: seq<FlushJob>, i: nat, attempts: nat -> Attempt, more: seq<FlushJob>)
    requires i < |w.queue| && Served(w, sent, i, attempts)
    requires if Due(w, w.queue[i], attempts(|w.queue| - i).corrupt) then |more| == 1 && JobOf(more[0], w, i, attempts) else more == []
    ensures Served(w, sent + more, i + 1, attempts)
  {
    hide JobOf, Due;
  }

  /** The worker after the first `i` in line were served unhindered. */
  ghost predicate MidServed(w: Worker, m: Worker, i: nat, attempts: nat -> Attempt)
    requires i <= |w.queue|
  {
    && m.queue == w.queue[i..] && m.store == w.store && Tidy(m)
    && |w.jobs| <= |m.jobs| && m.jobs[..|w.jobs|] == w.jobs
    && Served(w, m.jobs[|w.jobs|..], i, attempts)
  }

  /** One replay of an unhindered pass. */
  lemma MidServedStep(w: Worker, m: Worker, i: nat, window: int, attempts: nat -> Attempt)
    requires Tidy(w) && i < |w.queue| && MidServed(w, m, i, attempts) && Unhindered(attempts)
    requires SameEntry(m, w, w.queue[i])
    ensures !Gated(m, attempts(|w.queue| - i))
    ensures MidServed(w, Replay(m, window, attempts(|w.queue| - i)), i + 1, attempts)
  {
    hide Tidy, Replay, Served, IsJob, HasReadable, Gated, DueUpTo;
    var a, id := attempts(|w.queue| - i), w.queue[i];
    ReplaySends(m, window, a);
    ReplayTidy(m, window, a);
    var m' := Replay(m, window, a);
    assert m.queue[1..] == w.queue[i + 1..];
    assert m'.jobs[..|w.jobs|] == m'.jobs[..|m.jobs|][..|w.jobs|];
    var sent, more := m.jobs[|w.jobs|..], m'.jobs[|m.jobs|..];
    assert m'.jobs[|w.jobs|..] == sent + more;
    assert Due(m, id, a.corrupt) <==> Due(w, id, a.corrupt);
    ServeNext(w, sent, i, attempts, more);
  }

  /** An unhindered pass serves the whole line. */
  lemma {:induction false} MidServes(w: Worker, window: int, attempts: nat -> Attempt, i: nat)
    requires Tidy(w) && i <= |w.queue| && Unhindered(attempts)
    ensures MidServed(w, Mid(w, |w.queue|, window, attempts, i), i, attempts)
    ensures i < |w.queue| ==> !Stops(w, |w.queue|, window, attempts, i)
  {
    hide Tidy, Replay, Served, ReadFailed, ReadFails, Mid, Unhindered, MidServed, Gated;
    if i == 0 {
      MidServesNone(w, window, attempts);
    } else {
      MidServes(w, window, attempts, i - 1);
      MidStep(w, |w.queue|, window, attempts, i);
      MidUnreached(w, |w.queue|, window, attempts, i - 1, i - 1);
      MidServedStep(w, Mid(w, |w.queue|, window, attempts, i - 1), i - 1, window, attempts);
    }
    if i < |w.queue| {
      MidUnreached(w, |w.queue|, window, attempts, i, i);
      MidServedStep(w, Mid(w, |w.queue|, window, attempts, i), i, window, attempts);
    }
  }

  lemma MidServesNone(w: Worker, window: int, attempts: nat -> Attempt)
    requires Tidy(w)
    ensures MidServed(w, Mid(w, |w.queue|, window, attempts, 0), 0, attempts)
  {
    hide Tidy, Replay;
    assert w.queue[0..] == w.queue;
  }

  /** The worker as a tick's pass finds it: disk expired, decisions evicted, overdue publishes dropped. */
  function Aged(w: Worker, now: int, expired: set<nat>): (v: Worker) {
    Sweep(w.(store := Keeping(w.store, expired), dec := w.dec[ExpiredPrefix(w.dec, now)..]), now)
  }

  /**
   A tick that meets neither a full channel nor a read error leaves nothing
   parked, and has sent one job, in line order, for each intent that still owed a
   publish or had anything readable left on disk.
   */
  lemma UnhinderedTickEmptiesTheLine(w: Worker, now: int, window: int, expired: set<nat>, attempts: nat -> Attempt)
    requires Tidy(w) && Unhindered(attempts)
    ensures var w', v := Tick(w, now, window, expired, attempts), Aged(w, now, expired);
            && w'.pend == map[] && w'.queue == []
            && v.queue == w.queue && |w.jobs| <= |w'.jobs| && w'.jobs[..|w.jobs|] == w.jobs
            && Served(v, w'.jobs[|w.jobs|..], |w.queue|, attempts)
  {
    hide Tidy, Sweep, Drain, Served, Mid, Reach, Stops, Unhindered, Keeping;
    var v := Aged(w, now, expired);
    var n := |v.queue|;
    AgedTidy(w, Keeping(w.store, expired), w.dec[ExpiredPrefix(w.dec, now)..]);
    SweepTidy(w.(store := Keeping(w.store, expired), dec := w.dec[ExpiredPrefix(w.dec, now)..]), now);
    SweepSends(w.(store := Keeping(w.store, expired), dec := w.dec[ExpiredPrefix(w.dec, now)..]), now);
    DrainShape(v, n, window, attempts);
    var k := Reach(v, n, window, attempts, 0);
    assert k == n by {
      if k < n {
        MidServes(v, window, attempts, k);
      }
    }
    MidServes(v, window, attempts, n);
    EmptyLine(Drain(v, n, window, attempts));
  }

  lemma EmptyLine(w: Worker)
    requires Tidy(w) && w.queue == []
    ensures w.pend == map[]
  {
  }

  /** The sweep sends nothing; an intent whose deadline has passed stops owing its publish, and no other. */
  lemma SweepSends(w: Worker, now: int)
    ensures var v := Sweep(w, now);
            && v.jobs == w.jobs && v.store == w.store && v.lost == w.lost
            && forall id ::
                 && (id in v.pend <==> id in w.pend && !(w.pend[id].need == Need(true, false) && w.pend[id].deadline <= now))
                 && (id in v.pend && w.pend[id].need.publish && w.pend[id].deadline <= now
                     ==> v.pend[id] == w.pend[id].(need := NEED_FLUSH, deadline := 0))
                 && (id in v.pend && !(w.pend[id].need.publish && w.pend[id].deadline <= now) ==> v.pend[id] == w.pend[id])
  {
  }
}
