/**
 The flusher's batch: one deduplicated bus call for the publishes it owes, then
 each job re-parked, consumed or dropped. Proved against the steps of `ShardRun`.
 */
module Flusher {
  import opened Types
  import opened ShardModel
  import opened ShardRun

  /** One broadcast verdict. */
  datatype Broadcast = Broadcast(id: TraceId, reason: byte)

  /** Each trace that owes a publish once, with the reason of its first owing job. */
  function KeepsOf(batch: seq<FlushJob>): (keeps: seq<Broadcast>) {
    if batch == [] then []
    else
      var m := |batch| - 1;
      KeepsOf(batch[..m])
      + if batch[m].need.publish && batch[m].id !in PublishIds(batch[..m]) then [Broadcast(batch[m].id, batch[m].reason)] else []
  }

  /** The ids of the broadcasts, in order. */
  function IdsOf(keeps: seq<Broadcast>): (ids: seq<TraceId>)
    ensures |ids| == |keeps|
    ensures forall i :: 0 <= i < |keeps| ==> ids[i] == keeps[i].id
  {
    seq(|keeps|, i requires 0 <= i < |keeps| => keeps[i].id)
  }

  /** `keeps` names each of `ids` exactly once. */
  ghost predicate NamesOnce(keeps: seq<Broadcast>, ids: set<TraceId>) {
    multiset(IdsOf(keeps)) == multiset(ids) && |keeps| == |ids|
  }

  lemma NameAnother(keeps: seq<Broadcast>, ids: set<TraceId>, b: Broadcast)
    requires NamesOnce(keeps, ids) && b.id !in ids
    ensures NamesOnce(keeps + [b], ids + {b.id})
  {
    hide IdsOf;
    assert IdsOf(keeps + [b]) == IdsOf(keeps) + [b.id];
  }

  /** The bus call names every trace that owes a publish exactly once. */
  lemma {:induction false} KeepsNameEachTraceOnce(batch: seq<FlushJob>)
    ensures NamesOnce(KeepsOf(batch), PublishIds(batch))
  {
    if batch == [] {
      KeepsBegin();
    } else {
      hide PublishIds, KeepsOf, NamesOnce;
      var m := |batch| - 1;
      assert batch[..m + 1] == batch;
      KeepsNameEachTraceOnce(batch[..m]);
      NextPublishIds(batch, m);
      NextKeeps(batch, m);
      if batch[m].need.publish && batch[m].id !in PublishIds(batch[..m]) {
        NameAnother(KeepsOf(batch[..m]), PublishIds(batch[..m]), Broadcast(batch[m].id, batch[m].reason));
      } else {
        assert KeepsOf(batch[..m]) + [] == KeepsOf(batch[..m]);
        assert PublishIds(batch) == PublishIds(batch[..m]);
      }
    }
  }

  /** A broadcast carries the reason of the first job that owes a publish for its trace. */
  lemma {:induction false} FirstReasonWins(batch: seq<FlushJob>, i: nat)
    requires i < |batch| && batch[i].need.publish
    requires forall k :: 0 <= k < i && batch[k].id == batch[i].id ==> !batch[k].need.publish
    ensures Broadcast(batch[i].id, batch[i].reason) in KeepsOf(batch)
  {
    var m := |batch| - 1;
    if i < m {
      FirstReasonWins(batch[..m], i);
    } else {
      var b := Broadcast(batch[i].id, batch[i].reason);
      forall j | j in batch[..m] && j.id == batch[m].id
        ensures !j.need.publish
      {
      }
      assert KeepsOf(batch) == KeepsOf(batch[..m]) + [b];
    }
  }

  method BuildKeeps(batch: seq<FlushJob>) returns (keeps: seq<Broadcast>)
    ensures keeps == KeepsOf(batch)
  {
    hide PublishIds, KeepsOf;
    var seen: set<TraceId> := {};
    keeps := [];
    KeepsBegin();
    var i := 0;
    assert batch[..0] == [];
    while i < |batch|
      invariant 0 <= i <= |batch|
      invariant seen == PublishIds(batch[..i]) && keeps == KeepsOf(batch[..i])
    {
      NextPublishIds(batch, i);
      NextKeeps(batch, i);
      if batch[i].need.publish && batch[i].id !in seen {
        keeps := keeps + [Broadcast(batch[i].id, batch[i].reason)];
        seen := seen + {batch[i].id};
      }
      i := i + 1;
    }
    assert batch[..i] == batch;
  }

  lemma KeepsBegin()
    ensures KeepsOf([]) == [] && PublishIds([]) == {}
  {
  }

  lemma NextKeeps(batch: seq<FlushJob>, i: nat)
    requires i < |batch|
    ensures KeepsOf(batch[..i + 1])
         == KeepsOf(batch[..i]) + if batch[i].need.publish && batch[i].id !in PublishIds(batch[..i]) then [Broadcast(batch[i].id, batch[i].reason)] else []
  {
    hide PublishIds;
    assert batch[..i + 1][..i] == batch[..i];
  }

  lemma NextPublishIds(batch: seq<FlushJob>, i: nat)
    requires i < |batch|
    ensures PublishIds(batch[..i + 1]) == PublishIds(batch[..i]) + if batch[i].need.publish then {batch[i].id} else {}
  {
    assert batch[..i + 1] == batch[..i] + [batch[i]];
  }

  /** All jobs of an answered batch, in order. */
  function HandleAll(s: System, cs: nat -> Consumption, lands: nat -> bool): (s': System)
    decreases |s.held|
  {
    if s.held == [] then s
    else
      var next := Handle(s, cs(|s.held|), lands(|s.held|));
      HandleHeld(s, cs(|s.held|), lands(|s.held|));
      HandleAll(next, cs, lands)
  }

  lemma HandleHeld(s: System, c: Consumption, lands: bool)
    requires s.held != []
    ensures Handle(s, c, lands).held == s.held[1..]
  {
  }

  /** Decode a job's fragments one by one; the undecodable are set apart. */
  method Decode(frags: seq<nat>, c: Consumption) returns (good: set<nat>, bad: set<nat>)
    ensures good == Decodable(frags, c) && bad == Undecodable(frags, c)
  {
    good, bad := {}, {};
    var i := 0;
    while i < |frags|
      invariant 0 <= i <= |frags|
      invariant forall n :: n in good <==> n in frags[..i] && n !in c.undecodable
      invariant forall n :: n in bad <==> n in frags[..i] && n in c.undecodable
    {
      assert frags[..i + 1] == frags[..i] + [frags[i]];
      if frags[i] in c.undecodable {
        bad := bad + {frags[i]};
      } else {
        good := good + {frags[i]};
      }
      i := i + 1;
    }
    assert frags[..i] == frags;
  }

  class Flusher {
    var accepted: set<nat>
    var dropped: set<nat>
    var retries: seq<RetryEvent>
    var stopping: bool
    var publishedKeeps: nat
    var publishErrors: nat
    ghost var acked: multiset<TraceId>
    ghost var deduped: multiset<TraceId>
    ghost var refused: multiset<TraceId>

    /** The flusher beside a worker `w`, with `held` of its batch still to handle. */
    ghost function State(w: Worker, held: seq<FlushJob>, publishing: bool, failed: set<TraceId>, nextFrag: nat): (s: System)
      reads this
    {
      System(w, held, publishing, failed, retries, accepted, dropped, acked, deduped, refused, stopping, nextFrag)
    }

    constructor ()
      ensures accepted == {} && dropped == {} && retries == [] && !stopping && publishedKeeps == publishErrors == 0
      ensures acked == deduped == refused == multiset{}
    {
      accepted, dropped, retries, stopping, publishedKeeps, publishErrors := {}, {}, [], false, 0, 0;
      acked, deduped, refused := multiset{}, multiset{}, multiset{};
    }

    method Retry(j: FlushJob, need: Need, lands: bool, ghost w: Worker, ghost held: seq<FlushJob>, ghost failed: set<TraceId>, ghost nf: nat)
      modifies this`retries, this`refused
      ensures State(w, held, false, failed, nf) == ShardRun.Retry(old(State(w, held, false, failed, nf)), j, need, lands)
    {
      if lands || !stopping {
        retries := retries + [RetryEvent(j.id, j.reason, need, j.deadline)];
      } else if need.publish {
        refused := refused + multiset{j.id};
      }
    }

    method Consume(j: FlushJob, c: Consumption, lands: bool, ghost w: Worker, ghost held: seq<FlushJob>, ghost failed: set<TraceId>, ghost nf: nat)
      modifies this`retries, this`refused, this`accepted, this`dropped
      ensures State(w, held, false, failed, nf) == ShardRun.Consume(old(State(w, held, false, failed, nf)), j, c, lands)
    {
      hide Decodable, Undecodable, ShardRun.Retry;
      if !j.need.flush || j.frags == [] {
        return;
      }
      var good, bad := Decode(j.frags, c);
      dropped := dropped + bad;
      if good <= c.spanless {
        dropped := dropped + good;
        return;
      }
      match c.verdict {
        case Accepted => accepted := accepted + good;
        case Permanent => dropped := dropped + good;
        case Retryable => Retry(j, NEED_FLUSH, lands, w, held, failed, nf);
      }
    }

    /** `broken` are the traces whose publish the bus reports as failed. */
    method ProcessBatch(batch: seq<FlushJob>, broken: set<TraceId>, cs: nat -> Consumption, lands: nat -> bool, ghost w: Worker, ghost nf: nat)
      modifies this
      ensures State(w, [], false, PublishIds(batch) * broken, nf)
           == HandleAll(Publish(old(State(w, batch, true, {}, nf)), broken), cs, lands)
      ensures publishedKeeps == old(publishedKeeps) + |PublishIds(batch) - broken|
      ensures publishErrors == old(publishErrors) + |PublishIds(batch) * broken|
    {
      hide HandleAll, KeepsOf, PublishIds, Duplicates, IdsOf;
      var keeps := BuildKeeps(batch);
      KeepsNameEachTraceOnce(batch);
      var ids := PublishIds(batch);
      var failed := ids * broken;
      publishErrors := publishErrors + |failed|;
      Difference(ids, broken);
      publishedKeeps := publishedKeeps + (|keeps| - |failed|);
      acked := acked + multiset(ids - broken);
      deduped := deduped + Duplicates(batch, ids - broken);
      HandleBatch(batch, failed, cs, lands, w, nf);
    }

    /** Each job in order: handed back whole if its publish failed, else consumed. */
    method HandleBatch(batch: seq<FlushJob>, failed: set<TraceId>, cs: nat -> Consumption, lands: nat -> bool, ghost w: Worker, ghost nf: nat)
      modifies this`retries, this`refused, this`accepted, this`dropped
      ensures State(w, [], false, failed, nf) == HandleAll(old(State(w, batch, false, failed, nf)), cs, lands)
    {
      hide Handle, ShardRun.Retry, ShardRun.Consume;
      var i := 0;
      assert batch[0..] == batch;
      while i < |batch|
        invariant 0 <= i <= |batch|
        invariant HandleAll(State(w, batch[i..], false, failed, nf), cs, lands) == HandleAll(old(State(w, batch, false, failed, nf)), cs, lands)
      {
        var j, c, land := batch[i], cs(|batch| - i), lands(|batch| - i);
        HandleJob(State(w, batch[i..], false, failed, nf), c, land);
        if j.need.publish && j.id in failed {
          Retry(j, j.need, land, w, batch[i + 1..], failed, nf);
        } else {
          Consume(j, c, land, w, batch[i + 1..], failed, nf);
        }
        i := i + 1;
      }
      assert batch[i..] == [];
    }
  }

  // ------------------------------------------------ a batch is part of a run

  function Steps(s: System, window: int, events: seq<Event>): (s': System)
    decreases |events|
  {
    if events == [] then s else Steps(Step(s, window, events[0]), window, events[1..])
  }

  function Handlings(n: nat, cs: nat -> Consumption, lands: nat -> bool): (events: seq<Event>) {
    if n == 0 then [] else [Handled(cs(n), lands(n))] + Handlings(n - 1, cs, lands)
  }

  lemma {:induction false} HandlingsAreSteps(s: System, window: int, cs: nat -> Consumption, lands: nat -> bool)
    requires !s.publishing
    ensures Steps(s, window, Handlings(|s.held|, cs, lands)) == HandleAll(s, cs, lands)
    decreases |s.held|
  {
    if s.held != [] {
      hide Handle;
      var n := |s.held|;
      var e := Handled(cs(n), lands(n));
      HandleStays(s, cs(n), lands(n));
      assert Step(s, window, e) == Handle(s, cs(n), lands(n));
      assert ([e] + Handlings(n - 1, cs, lands))[1..] == Handlings(n - 1, cs, lands);
      HandlingsAreSteps(Handle(s, cs(n), lands(n)), window, cs, lands);
    }
  }

  lemma HandleStays(s: System, c: Consumption, lands: bool)
    requires s.held != []
    ensures Handle(s, c, lands).held == s.held[1..] && Handle(s, c, lands).publishing == s.publishing
  {
  }

  lemma PublishStays(s: System, broken: set<TraceId>)
    ensures Publish(s, broken).held == s.held && !Publish(s, broken).publishing
  {
  }

  /** Processing a batch is one answer of the bus followed by one handling per job: steps of a run. */
  lemma BatchIsARun(s: System, window: int, broken: set<TraceId>, cs: nat -> Consumption, lands: nat -> bool)
    requires s.held != [] && s.publishing
    ensures Steps(s, window, [Published(broken)] + Handlings(|s.held|, cs, lands)) == HandleAll(Publish(s, broken), cs, lands)
  {
    hide HandleAll, Handlings, Publish, Duplicates;
    PublishStays(s, broken);
    var events := [Published(broken)] + Handlings(|s.held|, cs, lands);
    assert events[1..] == Handlings(|s.held|, cs, lands);
    HandlingsAreSteps(Publish(s, broken), window, cs, lands);
  }

  lemma HandleJob(s: System, c: Consumption, lands: bool)
    requires s.held != []
    ensures Handle(s, c, lands)
         == (var j, rest := s.held[0], s.(held := s.held[1..]);
             if j.need.publish && j.id in s.failed then Retry(rest, j, j.need, lands) else Consume(rest, j, c, lands))
  {
  }

  lemma Difference(ids: set<TraceId>, broken: set<TraceId>)
    ensures |ids| == |ids - broken| + |ids * broken|
  {
    assert ids == (ids - broken) + (ids * broken);
  }
}
