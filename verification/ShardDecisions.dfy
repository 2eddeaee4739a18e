/**
 Decisions over whole runs: a trace is decided once per window, a decision
 lasts until its deadline and no longer than a window of the worker's own
 clock, and every handled keep is counted once.
 */
module ShardDecisions {
  import opened Types
  import opened DecidedSet
  import opened ShardModel
  import opened ShardQueue
  import opened ShardRun
  import opened ShardDeadlines

  /** Event `i` of the run is a keep that decides its trace. */
  ghost predicate Fresh(window: int, events: seq<Event>, i: nat) {
    && i < |events| && events[i].KeepVerdict?
    && !Holds(Run(window, events[..i]).w.dec, events[i].id)
  }

  function DeadlineOf(e: Event, window: int): (d: int)
    requires e.KeepVerdict?
    ensures d <= e.now + window
  {
    Clamp(e.at, e.now) + window
  }

  lemma RunPrefix(window: int, events: seq<Event>, i: nat)
    requires i < |events|
    ensures Run(window, events[..i + 1]) == Step(Run(window, events[..i]), window, events[i])
  {
    assert events[..i + 1][..i] == events[..i];
  }

  /** Only keeps add decisions and only ticks evict them. */
  lemma StepDecisions(s: System, window: int, e: Event)
    ensures Step(s, window, e).w.dec
         == if e.KeepVerdict? && !Holds(s.w.dec, e.id) then s.w.dec + [Entry(e.id, DeadlineOf(e, window))]
            else if e.Ticked? then s.w.dec[ExpiredPrefix(s.w.dec, e.now)..]
            else s.w.dec
    ensures Step(s, window, e).w.owed
         == if e.KeepVerdict? && !Holds(s.w.dec, e.id) && e.origin.Local? then s.w.owed + multiset{e.id} else s.w.owed
    ensures Step(s, window, e).w.issued
         == if e.KeepVerdict? && !Holds(s.w.dec, e.id) && e.origin.Local? then s.w.issued + {(e.id, DeadlineOf(e, window))} else s.w.issued
    ensures Step(s, window, e).w.keeps == s.w.keeps + if e.KeepVerdict? then 1 else 0
    ensures Step(s, window, e).w.duplicateKeeps == s.w.duplicateKeeps + if e.KeepVerdict? && Holds(s.w.dec, e.id) then 1 else 0
    ensures Step(s, window, e).w.keptLocal
         == s.w.keptLocal + if e.KeepVerdict? && !Holds(s.w.dec, e.id) && !e.origin.Bus? then 1 else 0
    ensures Step(s, window, e).w.keptBus
         == s.w.keptBus + if e.KeepVerdict? && !Holds(s.w.dec, e.id) && e.origin.Bus? then 1 else 0
  {
    hide Holds, Handle, Publish, Tick, AppendFragment, Park, CollectAndSend;
    match e
    case Fragment(id, appended, room, now) => AppendHistory(s.w, s.nextFrag, id, appended, room, now + window);
    case KeepVerdict(id, reason, origin, at, now, a) =>
      CollectAndSendHistory(Decide(s.w, id, origin, DeadlineOf(e, window)), id, reason, Need(origin.Local?, true),
                            DeadlineOf(e, window), a.clock + window, a);
    case HandBack(i, now) =>
      if i < |s.retries| {
        var r := s.retries[i];
        ParkHistory(s.w, r.id, r.reason, r.need, r.deadline, now + window);
      }
    case Ticked(now, expired, attempts) => TickHistory(s.w, now, window, expired, attempts);
    case Sacrificed(expired) =>
    case Gather(k) =>
    case Published(failed) => PublishFrame(s, failed);
    case Handled(c, lands) => if s.held != [] { HandleFrame(s, c, lands); }
    case Stop =>
  }

  // ------------------------------------------------------ once per window

  lemma LiveEntrySurvives(dec: seq<Entry>, now: int, entry: Entry)
    requires entry in dec && now < entry.deadline
    ensures entry in dec[ExpiredPrefix(dec, now)..]
  {
    var n := ExpiredPrefix(dec, now);
    var p :| 0 <= p < |dec| && dec[p] == entry;
    assert dec[n..][p - n] == entry;
  }

  /** No entry is evicted before its own deadline. */
  lemma {:induction false} EntryStays(window: int, events: seq<Event>, i: nat, m: nat)
    requires Fresh(window, events, i) && i < m <= |events|
    requires forall k :: i < k < m && events[k].Ticked? ==> events[k].now < DeadlineOf(events[i], window)
    ensures Entry(events[i].id, DeadlineOf(events[i], window)) in Run(window, events[..m]).w.dec
  {
    hide Step, Run;
    var entry := Entry(events[i].id, DeadlineOf(events[i], window));
    RunPrefix(window, events, m - 1);
    var s := Run(window, events[..m - 1]);
    StepDecisions(s, window, events[m - 1]);
    if i == m - 1 {
      assert (s.w.dec + [entry])[|s.w.dec|] == entry;
    } else {
      EntryStays(window, events, i, m - 1);
      hide ExpiredPrefix;
      if events[m - 1].Ticked? {
        LiveEntrySurvives(s.w.dec, events[m - 1].now, entry);
      } else if events[m - 1].KeepVerdict? {
        assert entry in s.w.dec + [Entry(events[m - 1].id, DeadlineOf(events[m - 1], window))];
      }
    }
  }

  lemma MemberHolds(dec: seq<Entry>, entry: Entry)
    requires entry in dec
    ensures Holds(dec, entry.id)
  {
  }

  /**
   Two keeps that each decide the same trace are separated by an eviction at a
   time no earlier than the first one's clamped stamp plus the window.
   */
  lemma OncePerWindow(window: int, events: seq<Event>, i: nat, j: nat)
    requires i < j && Fresh(window, events, i) && Fresh(window, events, j)
    requires events[i].id == events[j].id
    ensures exists k :: i < k < j && events[k].Ticked? && events[k].now >= DeadlineOf(events[i], window)
  {
    hide Run, Holds;
    if forall k :: i < k < j && events[k].Ticked? ==> events[k].now < DeadlineOf(events[i], window) {
      EntryStays(window, events, i, j);
      MemberHolds(Run(window, events[..j]).w.dec, Entry(events[i].id, DeadlineOf(events[i], window)));
    }
  }

  // ---------------------------------------------------------- no overstay

  /** The worker's clock never runs backwards. */
  ghost predicate ClockRuns(events: seq<Event>) {
    forall i, j :: 0 <= i < j < |events| && Clocked(events[i]) && Clocked(events[j]) ==> events[i].now <= events[j].now
  }

  predicate Clocked(e: Event) { e.KeepVerdict? || e.Ticked? }

  ghost predicate AllBy(dec: seq<Entry>, bound: int) {
    forall p :: 0 <= p < |dec| ==> dec[p].deadline <= bound
  }

  lemma AllBySlice(dec: seq<Entry>, bound: int, n: nat)
    requires AllBy(dec, bound) && n <= |dec|
    ensures AllBy(dec[n..], bound)
  {
  }

  lemma AllByAppend(dec: seq<Entry>, bound: int, entry: Entry)
    requires AllBy(dec, bound) && entry.deadline <= bound
    ensures AllBy(dec + [entry], bound)
  {
  }

  /** Nothing in the list outlives the latest clock reading by more than the window. */
  lemma {:induction false} DeadlinesBehindClock(window: int, events: seq<Event>, m: nat, c: int)
    requires m <= |events|
    requires forall k :: 0 <= k < m && events[k].KeepVerdict? ==> events[k].now <= c
    ensures AllBy(Run(window, events[..m]).w.dec, c + window)
  {
    if m > 0 {
      hide Step, Run, Holds, AllBy;
      var e, s := events[m - 1], Run(window, events[..m - 1]);
      RunPrefix(window, events, m - 1);
      StepDecisions(s, window, e);
      DeadlinesBehindClock(window, events, m - 1, c);
      AllBySlice(s.w.dec, c + window, if e.Ticked? then ExpiredPrefix(s.w.dec, e.now) else 0);
      if e.KeepVerdict? {
        AllByAppend(s.w.dec, c + window, Entry(e.id, DeadlineOf(e, window)));
      }
    }
  }

  /** An oldest part due by `bound`, then a part that does not mention `id`. */
  ghost predicate DueThenOther(dec: seq<Entry>, bound: int, id: TraceId, m: nat) {
    && m <= |dec|
    && (forall p :: 0 <= p < m ==> dec[p].deadline <= bound)
    && (forall p :: m <= p < |dec| ==> dec[p].id != id)
  }

  /** Eviction keeps that shape, and once the clock reaches the bound the whole oldest part is gone. */
  lemma EvictKeepsShape(dec: seq<Entry>, bound: int, id: TraceId, m: nat, now: int) returns (m': nat)
    requires DueThenOther(dec, bound, id, m)
    ensures DueThenOther(dec[ExpiredPrefix(dec, now)..], bound, id, m')
    ensures bound <= now ==> m' == 0
  {
    var n := ExpiredPrefix(dec, now);
    m' := if n <= m then m - n else 0;
  }

  lemma MarkKeepsShape(dec: seq<Entry>, bound: int, id: TraceId, m: nat, entry: Entry)
    requires DueThenOther(dec, bound, id, m) && entry.id != id
    ensures DueThenOther(dec + [entry], bound, id, m)
  {
  }

  lemma {:induction false} ShapeStays(window: int, events: seq<Event>, i: nat, m: nat) returns (cut: nat)
    requires i < m <= |events| && events[i].KeepVerdict? && ClockRuns(events)
    requires forall k :: i < k < m && Fresh(window, events, k) ==> events[k].id != events[i].id
    ensures DueThenOther(Run(window, events[..m]).w.dec, events[i].now + window, events[i].id, cut)
    ensures events[m - 1].Ticked? && events[m - 1].now >= events[i].now + window ==> cut == 0
  {
    hide Step, Run, Holds;
    var bound, id := events[i].now + window, events[i].id;
    if m == i + 1 {
      DeadlinesBehindClock(window, events, m, events[i].now);
      cut := |Run(window, events[..m]).w.dec|;
    } else {
      var prev := ShapeStays(window, events, i, m - 1);
      var dec := Run(window, events[..m - 1]).w.dec;
      RunPrefix(window, events, m - 1);
      StepDecisions(Run(window, events[..m - 1]), window, events[m - 1]);
      hide DueThenOther;
      var e := events[m - 1];
      if e.Ticked? {
        cut := EvictKeepsShape(dec, bound, id, prev, e.now);
      } else {
        cut := prev;
        if e.KeepVerdict? && !Holds(dec, e.id) {
          assert Fresh(window, events, m - 1);
          MarkKeepsShape(dec, bound, id, prev, Entry(e.id, DeadlineOf(e, window)));
        }
      }
    }
  }

  lemma TicksAreNotKeeps(window: int, events: seq<Event>, k: nat)
    requires k < |events| && events[k].Ticked?
    ensures !Fresh(window, events, k)
  {
  }

  /**
   Whatever stamps producers supply and however often the keep is repeated: a
   trace kept when the worker's clock read `c` is not decided after any tick at
   `c + window` or later, unless a keep after that decided it anew. A repeat
   cannot extend a decision.
   */
  lemma NoOverstay(window: int, events: seq<Event>, i: nat, k: nat)
    requires i < k < |events| && ClockRuns(events)
    requires events[i].KeepVerdict? && events[k].Ticked? && events[k].now >= events[i].now + window
    requires forall j :: i < j < k && Fresh(window, events, j) ==> events[j].id != events[i].id
    ensures !Holds(Run(window, events[..k + 1]).w.dec, events[i].id)
  {
    hide Run, Fresh;
    assert !events[k].KeepVerdict?;
    assert forall j :: i < j < k + 1 && Fresh(window, events, j) ==> j != k by { TicksAreNotKeeps(window, events, k); }
    var cut := ShapeStays(window, events, i, k + 1);
  }

  // -------------------------------------------------------------- counting

  function KeepEvents(events: seq<Event>): (n: nat) {
    if events == [] then 0 else KeepEvents(events[..|events| - 1]) + if events[|events| - 1].KeepVerdict? then 1 else 0
  }

  /** The keeps of the run that decided `id` and came from this instance's own detection. */
  ghost function LocalDecisions(window: int, events: seq<Event>, id: TraceId): (n: nat) {
    if events == [] then 0
    else
      var m := |events| - 1;
      LocalDecisions(window, events[..m], id)
      + if Fresh(window, events, m) && events[m].origin.Local? && events[m].id == id then 1 else 0
  }

  /** Every handled keep is counted exactly once, as local, bus or duplicate; only local decisions come to owe a publish. */
  lemma {:induction false} KeepsAreCounted(window: int, events: seq<Event>, id: TraceId)
    ensures var w := Run(window, events).w;
            && w.keeps == KeepEvents(events)
            && w.keeps == w.keptLocal + w.keptBus + w.duplicateKeeps
            && w.owed[id] == LocalDecisions(window, events, id)
  {
    if events != [] {
      hide Step, Holds;
      var m := |events| - 1;
      KeepsAreCounted(window, events[..m], id);
      StepDecisions(Run(window, events[..m]), window, events[m]);
    }
  }

  /** Every deadline on record is one that a deciding local keep of that trace issued. */
  lemma {:induction false} IssuedByKeep(window: int, events: seq<Event>, id: TraceId, d: int) returns (i: nat)
    requires (id, d) in Run(window, events).w.issued
    ensures Fresh(window, events, i) && events[i].origin.Local? && events[i].id == id && d == DeadlineOf(events[i], window)
  {
    hide Step, Holds;
    var m := |events| - 1;
    StepDecisions(Run(window, events[..m]), window, events[m]);
    if (id, d) in Run(window, events[..m]).w.issued {
      i := IssuedByKeep(window, events[..m], id, d);
      assert events[..m][..i] == events[..i];
    } else {
      i := m;
    }
  }

  /**
   Deadlines cannot drift: in every run, an intent has a deadline exactly while it
   owes a publish, and each deadline of an outstanding publish, wherever it is
   travelling, is the clamped stamp plus window of a local keep that decided its trace.
   */
  lemma DeadlinesNeverDrift(window: int, events: seq<Event>, id: TraceId, d: int)
    requires forall e :: e in events ==> EventDatesItself(e, window)
    ensures var s := Run(window, events);
            && (forall x :: x in s.w.pend ==> (s.w.pend[x].deadline != 0 <==> s.w.pend[x].need.publish))
            && (Travels(s, id, d) ==> exists i: nat :: Fresh(window, events, i) && events[i].origin.Local? && events[i].id == id && d == DeadlineOf(events[i], window))
  {
    hide Run, Fresh;
    RunDated(window, events);
    if Travels(Run(window, events), id, d) {
      var i := IssuedByKeep(window, events, id, d);
    }
  }

  /** A publish of `id` with deadline `d` is parked, in the channel, held by the flusher or on its way back. */
  ghost predicate Travels(s: System, id: TraceId, d: int) {
    || (id in s.w.pend && s.w.pend[id].need.publish && s.w.pend[id].deadline == d)
    || (exists j :: (j in s.w.jobs || j in s.held) && j.id == id && j.need.publish && j.deadline == d)
    || (exists r :: r in s.retries && r.id == id && r.need.publish && r.deadline == d)
  }

  /** The clock does not run back during the pass. */
  ghost predicate ClockRunsOn(attempts: nat -> Attempt, now: int) {
    forall k :: now <= attempts(k).clock
  }

  /** After every tick, no parked publish is at or past its deadline, whatever the run before it. */
  lemma NoneOverdueAfterTick(window: int, events: seq<Event>)
    requires window > 0 && events != [] && events[|events| - 1].Ticked?
    requires ClockRunsOn(events[|events| - 1].attempts, events[|events| - 1].now)
    ensures NoneOverdue(Run(window, events).w, events[|events| - 1].now)
  {
    hide NoneOverdue, Tick;
    var m := |events| - 1;
    var e := events[m];
    TickNotOverdue(Run(window, events[..m]).w, e.now, window, e.expired, e.attempts);
  }

  /**
   A local keep that cannot be sent parks with its own deadline if and only if
   that is not the zero instant, which stands for "none" (or the fallback is zero too).
   */
  lemma KeepParksItsDeadlineIff(w: Worker, id: TraceId, reason: byte, at: int, now: int, window: int, a: Attempt)
    requires !Holds(w.dec, id) && id !in w.pend
    requires a.readError || !a.room
    ensures var w', deadline := Keep(w, id, reason, Local, at, now, window, a), Clamp(at, now) + window;
            && id in w'.pend && w'.pend[id].need.publish
            && (w'.pend[id].deadline == deadline <==> deadline != 0 || a.clock + window == 0)
  {
    hide Holds, Readable;
    var deadline := Clamp(at, now) + window;
    var decided := Decide(w, id, Local, deadline);
    var o := Try(decided.store, id, Need(true, true), a);
    assert o.SendFull? || o.CollectErr?;
    assert Keep(w, id, reason, Local, at, now, window, a) == Park(decided, id, reason, Need(true, true), deadline, a.clock + window);
  }

  /** A local keep dated exactly at the zero instant is the one case where the fallback replaces the deadline. */
  lemma ZeroDeadlineDrifts()
    ensures var keep := KeepVerdict(7, 1, Local, -10, 5, Attempt(false, 0, {}, false, 5));
            var s := Run(10, [keep]);
            !EventDatesItself(keep, 10) && 7 in s.w.pend && s.w.pend[7].need.publish && s.w.pend[7].deadline == 15 && DeadlineOf(keep, 10) == 0
  {
    var keep := KeepVerdict(7, 1, Local, -10, 5, Attempt(false, 0, {}, false, 5));
    assert [keep][..0] == [];
    assert Run(10, [keep]) == Step(INITIAL, 10, keep);
  }
}
