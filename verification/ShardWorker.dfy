/**
 The shard worker's own code: the parked map with its FIFO, the decided set and
 the flush channel, changed in place. Each method is proved against the step
 of `ShardModel` it carries out.
 */
module ShardWorker {
  import opened Types
  import opened DecidedSet
  import opened ShardModel

  const COMPACT_FLOOR: nat := 64

  class Shard {
    const window: int
    const dec: DecidedSet
    var pend: map<TraceId, PendReq>
    var pendq: seq<TraceId>
    var pendqHead: nat
    /** The fragments on disk and the jobs in the flush channel. */
    var store: seq<Stored>
    var jobs: seq<FlushJob>
    var keptLocal: nat
    var keptBus: nat
    var duplicateKeeps: nat
    var publishesAbandoned: nat
    var corruptFragments: nat
    var clampedStamps: nat
    ghost var keeps: nat
    ghost var lost: set<nat>
    ghost var owed: multiset<TraceId>
    ghost var abandoned: multiset<TraceId>
    ghost var merged: multiset<TraceId>
    ghost var issued: set<(TraceId, int)>

    ghost predicate Valid()
      reads this, dec
    {
      dec.Valid() && pendqHead <= |pendq| && publishesAbandoned == |abandoned|
    }

    ghost function State(): (w: Worker)
      requires Valid()
      reads this, dec
    {
      Worker(pend, pendq[pendqHead..], dec.Contents(), store, jobs, lost, owed, abandoned, merged, issued,
             keeps, keptLocal, keptBus, duplicateKeeps)
    }

    constructor (window: int, hash: (TraceId, nat) -> nat)
      ensures Valid() && fresh(dec) && this.window == window
      ensures State() == Worker(map[], [], [], [], [], {}, multiset{}, multiset{}, multiset{}, {}, 0, 0, 0, 0)
    {
      this.window := window;
      dec := new DecidedSet(hash);
      pend, pendq, pendqHead, store, jobs := map[], [], 0, [], [];
      keptLocal, keptBus, duplicateKeeps, publishesAbandoned, corruptFragments, clampedStamps := 0, 0, 0, 0, 0, 0;
      keeps, lost, owed, abandoned, merged, issued := 0, {}, multiset{}, multiset{}, multiset{}, {};
    }

    method Park(id: TraceId, reason: byte, need: Need, deadline: int, now: int)
      requires Valid()
      modifies this`pend, this`pendq, this`merged
      ensures Valid()
      ensures State() == ShardModel.Park(old(State()), id, reason, need, deadline, now + window)
      ensures |pendq| >= old(|pendq|) && pendq[..old(|pendq|)] == old(pendq)
    {
      hide DecidedSet.Valid;
      var req := if id in pend then pend[id] else NO_REQ;
      if need.publish && req.need.publish {
        merged := merged + multiset{id};
      }
      if !req.queued {
        pendq := pendq + [id];
        assert pendq[pendqHead..] == old(pendq[pendqHead..]) + [id];
      }
      var first := if req.deadline == 0 then deadline else req.deadline;
      req := PendReq(if req.reason == 0 then reason else req.reason,
                     Or(req.need, need),
                     true,
                     if !need.publish then req.deadline else if first == 0 then now + window else first);
      pend := pend[id := req];
    }

    /** Read the trace's fragments in append order, skipping corrupt ones, up to a read error if there is one. */
    method Collect(id: TraceId, a: Attempt) returns (frags: seq<nat>, skipped: nat, ok: bool)
      ensures ok <==> !a.readError
      ensures frags == Readable(store[..Reached(store, a)], id, a.corrupt)
      ensures skipped + |frags| == |Readable(store[..Reached(store, a)], id, {})|
    {
      hide Readable;
      ReadableNone(id, a.corrupt);
      ReadableNone(id, {});
      frags, skipped := [], 0;
      var i := 0;
      while i < Reached(store, a)
        invariant 0 <= i <= Reached(store, a)
        invariant frags == Readable(store[..i], id, a.corrupt)
        invariant skipped + |frags| == |Readable(store[..i], id, {})|
      {
        ReadableNext(store, i, id, a.corrupt);
        ReadableNext(store, i, id, {});
        if store[i].id == id {
          if store[i].n in a.corrupt {
            skipped := skipped + 1;
          } else {
            frags := frags + [store[i].n];
          }
        }
        i := i + 1;
      }
      ok := !a.readError;
    }

    /** Build the trace's job and try the hand-off; nothing is parked here. */
    method CollectOnce(id: TraceId, reason: byte, need: Need, deadline: int, a: Attempt) returns (o: Outcome)
      requires Valid()
      modifies this`jobs, this`lost, this`corruptFragments
      ensures Valid()
      ensures o == Try(old(store), id, need, a)
      ensures State() == if o.SendFull? || o.CollectErr? then old(State()) else Discharge(old(State()), id, reason, need, deadline, a)
      ensures corruptFragments == old(corruptFragments) + Skipped(old(store), id, a)
    {
      hide DecidedSet.Valid, Readable, Reached;
      WholeStore(store, a);
      var frags, skipped, ok := Collect(id, a);
      corruptFragments := corruptFragments + skipped;
      if !ok {
        return CollectErr;
      }
      if frags == [] && !need.publish {
        lost := lost + set s | s in store && s.id == id && s.n in a.corrupt :: s.n;
        return NothingOwed;
      }
      if !a.room {
        return SendFull;
      }
      lost := lost + set s | s in store && s.id == id && s.n in a.corrupt :: s.n;
      jobs := jobs + [FlushJob(id, reason, need, frags, deadline)];
      return SentOk;
    }

    method CollectAndSend(id: TraceId, reason: byte, need: Need, deadline: int, a: Attempt)
      requires Valid()
      modifies this`jobs, this`lost, this`corruptFragments, this`pend, this`pendq, this`merged
      ensures Valid()
      ensures State() == ShardModel.CollectAndSend(old(State()), id, reason, need, deadline, a.clock + window, a)
    {
      hide DecidedSet.Valid, Try, Discharge, ShardModel.Park, Readable, Skipped, ShardModel.CollectAndSend;
      ghost var w := State();
      CollectAndSendIs(w, id, reason, need, deadline, a.clock + window, a);
      var o := CollectOnce(id, reason, need, deadline, a);
      if o.SendFull? || o.CollectErr? {
        Park(id, reason, need, deadline, a.clock);
      }
    }

    /** Pull a stamp ahead of the worker's clock back to it, and count that. */
    method ClampAt(at: int, now: int) returns (stamp: int)
      modifies this`clampedStamps
      ensures stamp == Clamp(at, now)
      ensures clampedStamps == old(clampedStamps) + if stamp != at then 1 else 0
    {
      stamp := at;
      if at > now {
        stamp := now;
        clampedStamps := clampedStamps + 1;
      }
    }

    method CountKeep(id: TraceId, origin: Origin, deadline: int)
      requires Valid()
      modifies this`keptLocal, this`keptBus, this`owed, this`issued
      ensures Valid() && State() == Counted(old(State()), id, origin, deadline)
    {
      hide DecidedSet.Valid;
      match origin {
        case Local =>
          keptLocal, owed, issued := keptLocal + 1, owed + multiset{id}, issued + {(id, deadline)};
        case Baseline =>
          keptLocal := keptLocal + 1;
        case Bus =>
          keptBus := keptBus + 1;
      }
    }

    /** Mark the trace and count the keep; a repeat has no other effect. */
    method Decide(id: TraceId, origin: Origin, stamp: int) returns (isNew: bool)
      requires Valid()
      modifies this`keeps, this`duplicateKeeps, this`keptLocal, this`keptBus, this`owed, this`issued, dec
      ensures Valid()
      ensures isNew <==> !Holds(old(State()).dec, id)
      ensures State() == if isNew then ShardModel.Decide(old(State()), id, origin, stamp + window)
                         else old(State()).(keeps := old(keeps) + 1, duplicateKeeps := old(duplicateKeeps) + 1)
    {
      hide DecidedSet.Valid, Holds, Counted;
      ghost var w := State();
      keeps := keeps + 1;
      isNew := dec.Mark(id, stamp + window);
      if isNew {
        assert State() == w.(keeps := w.keeps + 1, dec := w.dec + [Entry(id, stamp + window)]);
        CountKeep(id, origin, stamp + window);
      } else {
        duplicateKeeps := duplicateKeeps + 1;
      }
    }

    /** A keep whose stamp has been clamped. */
    method KeepAt(id: TraceId, reason: byte, origin: Origin, stamp: int, a: Attempt)
      requires Valid()
      modifies this`keeps, this`duplicateKeeps, this`keptLocal, this`keptBus, this`owed, this`issued, dec
      modifies this`jobs, this`lost, this`corruptFragments, this`pend, this`pendq, this`merged
      ensures Valid()
      ensures State() == ShardModel.KeepAt(old(State()), id, reason, origin, stamp + window, window, a)
    {
      hide DecidedSet.Valid, Holds, ShardModel.Decide, ShardModel.CollectAndSend, Readable;
      var isNew := Decide(id, origin, stamp);
      if isNew {
        CollectAndSend(id, reason, Need(origin.Local?, true), stamp + window, a);
      }
    }

    method Keep(id: TraceId, reason: byte, origin: Origin, at: int, now: int, a: Attempt)
      requires Valid()
      modifies this, dec
      ensures Valid()
      ensures State() == ShardModel.Keep(old(State()), id, reason, origin, at, now, window, a)
      ensures clampedStamps == old(clampedStamps) + if Clamp(at, now) != at then 1 else 0
    {
      hide DecidedSet.Valid, Holds, Clamp, ShardModel.KeepAt, Readable;
      var stamp := ClampAt(at, now);
      KeepAt(id, reason, origin, stamp, a);
    }

    /**
     To disk with the clamped stamp, and for a decided trace on to the flusher;
     `n` numbers the record the buffer appended.
     */
    method AppendFragment(n: nat, id: TraceId, at: int, appended: bool, room: bool, now: int) returns (stamp: int)
      requires Valid()
      modifies this
      ensures Valid()
      ensures stamp == Clamp(at, now)
      ensures clampedStamps == old(clampedStamps) + if stamp != at then 1 else 0
      ensures State() == ShardModel.AppendFragment(old(State()), n, id, appended, room, now + window)
    {
      hide DecidedSet.Valid, ShardModel.Park;
      stamp := ClampAt(at, now);
      if !appended {
        return;
      }
      store := store + [Stored(n, id)];
      var decided := dec.Has(id);
      if !decided {
        return;
      }
      if room {
        jobs := jobs + [FlushJob(id, 0, NEED_FLUSH, [n], 0)];
      } else {
        Park(id, 0, NEED_FLUSH, 0, now);
      }
    }

    /** Clear one intent's publish if its deadline has passed; an intent left owing nothing is deleted. */
    method SweepEntry(id: TraceId, now: int)
      requires id in pend && publishesAbandoned == |abandoned|
      modifies this`pend, this`publishesAbandoned, this`abandoned
      ensures publishesAbandoned == |abandoned|
      ensures abandoned == old(abandoned) + if Expired(old(pend)[id], now) then multiset{id} else multiset{}
      ensures pend == if SweptOut(old(pend)[id], now) then old(pend) - {id} else old(pend)[id := SweepReq(old(pend)[id], now)]
    {
      var req := pend[id];
      if req.need.publish && req.deadline <= now {
        req := req.(need := req.need.(publish := false), deadline := 0);
        publishesAbandoned := publishesAbandoned + 1;
        abandoned := abandoned + multiset{id};
        if req.need == NO_NEED {
          pend := pend - {id};
        } else {
          pend := pend[id := req];
        }
      }
    }

    /** Drop every publish past its deadline, and every intent that then owes nothing. */
    method SweepPending(now: int)
      requires Valid()
      modifies this`pend, this`publishesAbandoned, this`abandoned
      ensures Valid()
      ensures State() == Sweep(old(State()), now)
    {
      hide DecidedSet.Valid, SweptSoFar, Overdue;
      ghost var before := pend;
      var rest := pend.Keys;
      SweepBegins(before, now);
      assert before.Keys - rest == {};
      while rest != {}
        invariant dec.Valid() && publishesAbandoned == |abandoned|
        invariant rest <= before.Keys
        invariant abandoned == old(abandoned) + multiset(Overdue(before, before.Keys - rest, now))
        invariant SweptSoFar(before, before.Keys - rest, pend, now)
        decreases rest
      {
        var id :| id in rest;
        SweepOne(before, before.Keys - rest, pend, now, id);
        assert before.Keys - (rest - {id}) == before.Keys - rest + {id};
        rest := rest - {id};
        SweepEntry(id, now);
      }
      assert before.Keys - rest == before.Keys;
      SweepDone(before, pend, now);
    }

    /** Dispose of the intent at the head of the line, unless the flush channel is full. */
    method ReplayHead(a: Attempt) returns (gated: bool)
      requires Valid() && pendqHead < |pendq|
      modifies this`pend, this`pendq, this`pendqHead, this`jobs, this`lost, this`corruptFragments, this`merged
      ensures Valid()
      ensures gated == Gated(old(State()), a)
      ensures State() == if gated then old(State()) else Replay(old(State()), window, a)
      ensures |pendq| >= old(|pendq|) && pendqHead == old(pendqHead) + if gated then 0 else 1
    {
      hide DecidedSet.Valid, Try, Discharge, ShardModel.Park, Readable, Skipped, Replay, Gated;
      ghost var w := State();
      ReplayCases(w, window, a);
      var id := pendq[pendqHead];
      assert id == w.queue[0] && pendq[pendqHead + 1..] == w.queue[1..];
      if id in pend {
        var req := pend[id];
        if req.need == NO_NEED {
          pend := pend - {id};
        } else {
          var o := CollectOnce(id, req.reason, req.need, req.deadline, a);
          if o.SendFull? {
            return true;
          }
          pend := pend - {id};
          if o.CollectErr? {
            assert State() == w.(pend := w.pend - {id});
            Park(id, req.reason, req.need, req.deadline, a.clock);
          }
        }
      }
      assert pendq[pendqHead + 1..] == State().queue[1..];
      pendqHead := pendqHead + 1;
      return false;
    }

    /** Replay parked intents oldest-first, each at most once, until the flush channel is full. */
    method DrainPending(attempts: nat -> Attempt)
      requires Valid()
      modifies this`pend, this`pendq, this`pendqHead, this`jobs, this`lost, this`corruptFragments, this`merged
      ensures Valid()
      ensures State() == Drain(old(State()), |old(State()).queue|, window, attempts)
      ensures pendqHead <= COMPACT_FLOOR || 2 * pendqHead <= |pendq| + 1
    {
      hide DecidedSet.Valid, Replay, Gated;
      var limit := |pendq|;
      ghost var start := State();
      while pendqHead < limit
        invariant Valid() && pendqHead <= limit <= |pendq|
        invariant Drain(State(), limit - pendqHead, window, attempts) == Drain(start, |start.queue|, window, attempts)
        decreases limit - pendqHead
      {
        var gated := ReplayHead(attempts(limit - pendqHead));
        if gated {
          break;
        }
      }
      CompactPendq();
    }

    /** Drop consumed slots once they dominate; the line itself does not change. */
    method CompactPendq()
      requires Valid()
      modifies this`pendq, this`pendqHead
      ensures Valid()
      ensures State() == old(State())
      ensures pendqHead <= COMPACT_FLOOR || 2 * pendqHead <= |pendq| + 1
    {
      hide DecidedSet.Valid;
      if pendqHead == |pendq| {
        pendq, pendqHead := [], 0;
      } else if pendqHead > COMPACT_FLOOR && pendqHead > |pendq| / 2 {
        pendq, pendqHead := pendq[pendqHead..], 0;
      }
    }

    /** Expiry, eviction, the deadline sweep and the drain, in that order. */
    method Tick(now: int, expired: set<nat>, attempts: nat -> Attempt)
      requires Valid()
      modifies this, dec
      ensures Valid()
      ensures State() == ShardModel.Tick(old(State()), now, window, expired, attempts)
    {
      hide DecidedSet.Valid, Sweep, Drain;
      store := Keeping(store, expired);
      var n := dec.Evict(now);
      SweepPending(now);
      DrainPending(attempts);
    }
  }

  /** A refused or failed attempt parks; any other discharges. */
  lemma CollectAndSendIs(w: Worker, id: TraceId, reason: byte, need: Need, deadline: int, fallback: int, a: Attempt)
    ensures CollectAndSend(w, id, reason, need, deadline, fallback, a)
         == var o := Try(w.store, id, need, a);
            if o.SendFull? || o.CollectErr? then Park(w, id, reason, need, deadline, fallback)
            else Discharge(w, id, reason, need, deadline, a)
  {
  }

  /** The four ways the head of the line is disposed of, with its slot consumed last. */
  lemma ReplayCases(w: Worker, window: int, a: Attempt)
    requires w.queue != []
    ensures var id, rest := w.queue[0], w.queue[1..];
            if id !in w.pend then !Gated(w, a) && Replay(w, window, a) == w.(queue := rest)
            else
              var req, pend := w.pend[id], w.pend - {id};
              var o := Try(w.store, id, req.need, a);
              if req.need == NO_NEED then !Gated(w, a) && Replay(w, window, a) == w.(queue := rest, pend := pend)
              else if o.SendFull? then Gated(w, a)
              else if o.CollectErr? then
                var parked := Park(w.(pend := pend), id, req.reason, req.need, req.deadline, a.clock + window);
                !Gated(w, a) && parked.queue != [] && Replay(w, window, a) == parked.(queue := parked.queue[1..])
              else
                !Gated(w, a) && Replay(w, window, a) == Discharge(w, id, req.reason, req.need, req.deadline, a).(queue := rest, pend := pend)
  {
    hide Readable;
    var id := w.queue[0];
    if id in w.pend {
      assert (w.queue + [id])[1..] == w.queue[1..] + [id];
    } else {
      assert w.pend - {id} == w.pend;
    }
  }

  /** How many records a collection reads: all, or those before the one that cannot be read. */
  function Reached(store: seq<Stored>, a: Attempt): (n: nat)
    ensures n <= |store|
  {
    if a.readError && a.errorAt < |store| then a.errorAt else |store|
  }

  lemma WholeStore(store: seq<Stored>, a: Attempt)
    ensures !a.readError ==> store[..Reached(store, a)] == store
  {
  }

  /** The trace's fragments a collection skips as corrupt. */
  function Skipped(store: seq<Stored>, id: TraceId, a: Attempt): (n: int) {
    |Readable(store[..Reached(store, a)], id, {})| - |Readable(store[..Reached(store, a)], id, a.corrupt)|
  }

  lemma ReadableNone(id: TraceId, corrupt: set<nat>)
    ensures Readable([], id, corrupt) == []
  {
  }

  lemma ReadableNext(store: seq<Stored>, i: nat, id: TraceId, corrupt: set<nat>)
    requires i < |store|
    ensures Readable(store[..i + 1], id, corrupt)
         == Readable(store[..i], id, corrupt) + if store[i].id == id && store[i].n !in corrupt then [store[i].n] else []
  {
    assert store[..i + 1][..i] == store[..i];
  }

  // ------------------------------------------------------------- the sweep

  ghost function Overdue(before: map<TraceId, PendReq>, done: set<TraceId>, now: int): (ids: set<TraceId>) {
    set id | id in before && id in done && Expired(before[id], now)
  }

  /** The map with the ids in `done` swept and the others as they were. */
  ghost predicate SweptSoFar(before: map<TraceId, PendReq>, done: set<TraceId>, pend: map<TraceId, PendReq>, now: int) {
    && (forall id :: id in pend <==> id in before && (id in done ==> !SweptOut(before[id], now)))
    && (forall id :: id in pend ==> pend[id] == if id in done then SweepReq(before[id], now) else before[id])
  }

  lemma SweepOne(before: map<TraceId, PendReq>, done: set<TraceId>, pend: map<TraceId, PendReq>, now: int, id: TraceId)
    requires SweptSoFar(before, done, pend, now) && id in before && id !in done
    ensures id in pend && pend[id] == before[id]
    ensures SweptSoFar(before, done + {id}, if SweptOut(before[id], now) then pend - {id} else pend[id := SweepReq(before[id], now)], now)
    ensures !Expired(before[id], now) ==> pend[id := SweepReq(before[id], now)] == pend
    ensures multiset(Overdue(before, done + {id}, now)) == multiset(Overdue(before, done, now)) + if Expired(before[id], now) then multiset{id} else multiset{}
  {
    if Expired(before[id], now) {
      assert Overdue(before, done + {id}, now) == Overdue(before, done, now) + {id};
    } else {
      assert Overdue(before, done + {id}, now) == Overdue(before, done, now);
    }
  }

  lemma SweepBegins(before: map<TraceId, PendReq>, now: int)
    ensures SweptSoFar(before, {}, before, now) && Overdue(before, {}, now) == {}
  {
  }

  lemma SweepDone(before: map<TraceId, PendReq>, pend: map<TraceId, PendReq>, now: int)
    requires SweptSoFar(before, before.Keys, pend, now)
    ensures pend == map id | id in before && !SweptOut(before[id], now) :: SweepReq(before[id], now)
    ensures Overdue(before, before.Keys, now) == set id | id in before && Expired(before[id], now)
  {
  }
}
