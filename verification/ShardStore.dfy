/**
 The worker's stored fragments are the buffer's retained list: what an attempt
 puts into a job is what the buffer collects, and what the buffer expires off
 its front is what a tick drops.
 */
module ShardStore {
  import opened Types
  import opened Segment
  import opened BufferLog
  import opened ShardModel
  import opened ShardDelivery
  import opened ShardWorker

  /** Stored fragment by stored fragment, the retained list; `payload` gives a numbered fragment's bytes. */
  ghost predicate Mirrors(store: seq<Stored>, log: seq<Frag>, payload: map<nat, seq<byte>>) {
    && |store| == |log|
    && (forall i :: 0 <= i < |store| ==> store[i].n in payload)
    && (forall i :: 0 <= i < |store| ==> store[i].id == log[i].rec.id && payload[store[i].n] == log[i].rec.frag)
  }

  ghost predicate AllIn(ns: seq<nat>, payload: map<nat, seq<byte>>) {
    forall i :: 0 <= i < |ns| ==> ns[i] in payload
  }

  ghost function Payloads(ns: seq<nat>, payload: map<nat, seq<byte>>): (frags: seq<seq<byte>>)
    requires AllIn(ns, payload)
    ensures |frags| == |ns|
    ensures forall i :: 0 <= i < |ns| ==> frags[i] == payload[ns[i]]
  {
    seq(|ns|, i requires 0 <= i < |ns| => payload[ns[i]])
  }

  /** The retained list without its corrupt fragments. */
  function Intact(store: seq<Stored>, log: seq<Frag>, corrupt: set<nat>): (fs: seq<Frag>)
    requires |store| == |log|
  {
    if store == [] then []
    else
      var m := |store| - 1;
      var rest := Intact(store[..m], log[..m], corrupt);
      if store[m].n in corrupt then rest else rest + [log[m]]
  }

  lemma {:induction false} NothingCorrupt(store: seq<Stored>, log: seq<Frag>)
    requires |store| == |log|
    ensures Intact(store, log, {}) == log
  {
    if store != [] {
      NothingCorrupt(store[..|store| - 1], log[..|store| - 1]);
    }
  }

  lemma OfTraceNext(fs: seq<Frag>, f: Frag, id: TraceId)
    ensures OfTrace(fs + [f], id) == OfTrace(fs, id) + if f.rec.id == id then [f.rec.frag] else []
  {
    assert (fs + [f])[..|fs|] == fs;
  }

  /**
   A job carries the bytes of the retained fragments of its trace that are not
   corrupt, in the order the buffer's own collection visits them.
   */
  lemma {:induction false} JobCarriesCollected(store: seq<Stored>, log: seq<Frag>, payload: map<nat, seq<byte>>, id: TraceId, corrupt: set<nat>)
    requires Mirrors(store, log, payload)
    ensures AllIn(Readable(store, id, corrupt), payload)
    ensures Payloads(Readable(store, id, corrupt), payload) == OfTrace(Intact(store, log, corrupt), id)
  {
    hide Readable, OfTrace;
    if store != [] {
      var m := |store| - 1;
      JobCarriesCollected(store[..m], log[..m], payload, id, corrupt);
      assert store[..m + 1] == store;
      ReadableNext(store, m, id, corrupt);
      var rest := Readable(store[..m], id, corrupt);
      assert rest + [] == rest;
      OfTraceNext(Intact(store[..m], log[..m], corrupt), log[m], id);
    } else {
      ReadableNone(id, corrupt);
      OfTraceNone(id);
    }
  }

  lemma OfTraceNone(id: TraceId)
    ensures OfTrace([], id) == []
  {
  }

  /** Appending to the buffer is appending to the store. */
  lemma AppendMirrors(store: seq<Stored>, log: seq<Frag>, payload: map<nat, seq<byte>>, n: nat, f: Frag)
    requires Mirrors(store, log, payload) && n !in payload
    ensures Mirrors(store + [Stored(n, f.rec.id)], log + [f], payload[n := f.rec.frag])
  {
  }

  /** The numbers of the oldest `k` fragments. */
  ghost function Oldest(store: seq<Stored>, k: nat): (ns: set<nat>)
    requires k <= |store|
  {
    if k == 0 then {} else Oldest(store, k - 1) + {store[k - 1].n}
  }

  lemma {:induction false} OldestAre(store: seq<Stored>, k: nat, bound: nat)
    requires Numbered(store, bound) && k <= |store|
    ensures forall i :: 0 <= i < |store| ==> (store[i].n in Oldest(store, k) <==> i < k)
  {
    if k > 0 {
      OldestAre(store, k - 1, bound);
      forall i | 0 <= i < |store| && i != k - 1
        ensures store[i].n != store[k - 1].n
      {
        if i < k - 1 {
          assert store[i].n < store[k - 1].n;
        } else {
          assert store[k - 1].n < store[i].n;
        }
      }
    }
  }

  /** Dropping the buffer's oldest `k` fragments is dropping their numbers from the store. */
  lemma ExpiryMirrors(store: seq<Stored>, log: seq<Frag>, payload: map<nat, seq<byte>>, k: nat, bound: nat)
    requires Mirrors(store, log, payload) && Numbered(store, bound) && k <= |log|
    ensures Keeping(store, Oldest(store, k)) == store[k..] && Mirrors(Keeping(store, Oldest(store, k)), log[k..], payload)
  {
    hide Numbered, Oldest, Keeping;
    OldestAre(store, k, bound);
    KeepingSuffix(store, Oldest(store, k), k);
  }

  lemma {:induction false} KeepingSuffix(store: seq<Stored>, expired: set<nat>, k: nat)
    requires k <= |store|
    requires forall i :: 0 <= i < |store| ==> (store[i].n in expired <==> i < k)
    ensures Keeping(store, expired) == store[k..]
  {
    if store == [] {
      KeepingNone(expired);
    } else {
      hide Keeping;
      var m := |store| - 1;
      KeepingNext(store, expired);
      if k <= m {
        KeepingSuffix(store[..m], expired, k);
        assert store[k..] == store[..m][k..] + [store[m]];
      } else {
        KeepingSuffix(store[..m], expired, m);
        assert store[..m][m..] + [] == store[k..];
      }
    }
  }

  lemma KeepingNone(expired: set<nat>)
    ensures Keeping([], expired) == []
  {
  }

  lemma KeepingNext(store: seq<Stored>, expired: set<nat>)
    requires store != []
    ensures Keeping(store, expired)
         == Keeping(store[..|store| - 1], expired) + if store[|store| - 1].n in expired then [] else [store[|store| - 1]]
  {
  }
}
