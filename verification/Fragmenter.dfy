/**
 Grouping a batch's spans by trace: references chained through one arena, one
 fragment per trace in order of first appearance, the first verdict winning.
 */
module Fragmenter {
  import opened Types
  import opened Wire
  import opened Spans
  import opened SpanGroups
  import opened Encoder
  import opened FragmentDecode
  import opened Bytes
  import Spoiled

  type Id = seq<byte>

  // ---------------------------------------------------------- specification

  /** Every span of the batch, in batch order. */
  function SpansOf(rs: nat, ss: nat, n: nat): (refs: seq<SpanRef>)
    ensures |refs| == n
  {
    if n == 0 then [] else SpansOf(rs, ss, n - 1) + [SpanRef(rs, ss, n - 1)]
  }

  function ScopesOf(scopes: seq<ScopeSpans>, rs: nat, n: nat): (refs: seq<SpanRef>)
    requires n <= |scopes|
  {
    if n == 0 then [] else ScopesOf(scopes, rs, n - 1) + SpansOf(rs, n - 1, |scopes[n - 1].spans|)
  }

  function RefsOf(td: Batch, n: nat): (refs: seq<SpanRef>)
    requires n <= |td|
  {
    if n == 0 then [] else RefsOf(td, n - 1) + ScopesOf(td[n - 1].scopes, n - 1, |td[n - 1].scopes|)
  }

  predicate Names(td: Batch, r: SpanRef) {
    r.rs < |td| && r.ss < |td[r.rs].scopes| && r.sp < |td[r.rs].scopes[r.ss].spans|
  }

  function IdAt(td: Batch, r: SpanRef): (id: Id)
    requires Names(td, r)
  {
    td[r.rs].scopes[r.ss].spans[r.sp].traceId
  }

  /** The references that belong to `id`, in order. */
  function Members(keys: seq<Id>, refs: seq<SpanRef>, id: Id): (r: seq<SpanRef>)
    requires |keys| == |refs|
  {
    if refs == [] then []
    else
      var n := |refs| - 1;
      Members(keys[..n], refs[..n], id) + if keys[n] == id then [refs[n]] else []
  }

  /** The distinct keys, in order of first appearance. */
  function Order(keys: seq<Id>): (ids: seq<Id>)
    ensures forall id :: id in ids <==> id in keys
  {
    if keys == [] then []
    else
      var n := |keys| - 1;
      assert keys == keys[..n] + [keys[n]];
      var ids := Order(keys[..n]);
      if keys[n] in ids then ids else ids + [keys[n]]
  }

  /** The first nonzero verdict among the spans of `id`. */
  function FirstReason(keys: seq<Id>, verdicts: seq<byte>, id: Id): (reason: byte)
    requires |keys| == |verdicts|
  {
    if keys == [] then 0
    else
      var n := |keys| - 1;
      var before := FirstReason(keys[..n], verdicts[..n], id);
      if before != 0 then before else if keys[n] == id then verdicts[n] else 0
  }

  /** The spans detection ran on: those whose trace had no verdict yet. */
  function Detected(keys: seq<Id>, verdicts: seq<byte>): (at: seq<nat>)
    requires |keys| == |verdicts|
  {
    if keys == [] then []
    else
      var n := |keys| - 1;
      Detected(keys[..n], verdicts[..n]) + if FirstReason(keys[..n], verdicts[..n], keys[n]) == 0 then [n] else []
  }

  // ------------------------------------------------------ what grouping means

  lemma {:induction false} OrderDistinct(keys: seq<Id>)
    ensures forall i, j :: 0 <= i < j < |Order(keys)| ==> Order(keys)[i] != Order(keys)[j]
  {
    if keys != [] {
      OrderDistinct(keys[..|keys| - 1]);
    }
  }

  lemma {:induction false} FirstReasonIsFirst(keys: seq<Id>, verdicts: seq<byte>, i: nat)
    requires |keys| == |verdicts| && i < |keys| && verdicts[i] != 0
    requires forall k :: 0 <= k < i && keys[k] == keys[i] ==> verdicts[k] == 0
    ensures FirstReason(keys, verdicts, keys[i]) == verdicts[i]
  {
    var n := |keys| - 1;
    if i < n {
      FirstReasonIsFirst(keys[..n], verdicts[..n], i);
    } else {
      NoReasonYet(keys[..n], verdicts[..n], keys[i]);
    }
  }

  lemma {:induction false} NoReasonYet(keys: seq<Id>, verdicts: seq<byte>, id: Id)
    requires |keys| == |verdicts|
    requires forall k :: 0 <= k < |keys| && keys[k] == id ==> verdicts[k] == 0
    ensures FirstReason(keys, verdicts, id) == 0
  {
    if keys != [] {
      NoReasonYet(keys[..|keys| - 1], verdicts[..|keys| - 1], id);
    }
  }

  /** The groups, one after the other. */
  function Grouped(keys: seq<Id>, refs: seq<SpanRef>, ids: seq<Id>): (r: seq<SpanRef>)
    requires |keys| == |refs|
  {
    if ids == [] then [] else Grouped(keys, refs, ids[..|ids| - 1]) + Members(keys, refs, ids[|ids| - 1])
  }

  lemma {:induction false} GroupedNothing(ids: seq<Id>)
    ensures Grouped([], [], ids) == []
  {
    if ids != [] {
      GroupedNothing(ids[..|ids| - 1]);
    }
  }

  /** Adding one span adds it to its own group and to no other. */
  lemma {:induction false} GroupedNext(keys: seq<Id>, refs: seq<SpanRef>, ids: seq<Id>)
    requires |keys| == |refs| > 0
    requires forall i, j :: 0 <= i < j < |ids| ==> ids[i] != ids[j]
    ensures var n := |keys| - 1;
            multiset(Grouped(keys, refs, ids))
            == multiset(Grouped(keys[..n], refs[..n], ids)) + if keys[n] in ids then multiset{refs[n]} else multiset{}
  {
    if ids != [] {
      var m, n := |ids| - 1, |keys| - 1;
      assert ids == ids[..m] + [ids[m]];
      GroupedNext(keys, refs, ids[..m]);
    }
  }

  /** An id no span carries has an empty group. */
  lemma {:induction false} NoMembers(keys: seq<Id>, refs: seq<SpanRef>, id: Id)
    requires |keys| == |refs| && id !in keys
    ensures Members(keys, refs, id) == []
  {
    if refs != [] {
      var n := |refs| - 1;
      assert keys[n] in keys;
      assert forall k :: k in keys[..n] ==> k in keys;
      NoMembers(keys[..n], refs[..n], id);
    }
  }

  lemma GroupedMore(keys: seq<Id>, refs: seq<SpanRef>, ids: seq<Id>, id: Id)
    requires |keys| == |refs| && id !in keys
    ensures Grouped(keys, refs, ids + [id]) == Grouped(keys, refs, ids)
  {
    NoMembers(keys, refs, id);
    assert (ids + [id])[..|ids|] == ids;
  }

  /** The groups partition the batch: together they hold every span exactly once. */
  lemma {:induction false} GroupsPartition(keys: seq<Id>, refs: seq<SpanRef>)
    requires |keys| == |refs|
    ensures multiset(Grouped(keys, refs, Order(keys))) == multiset(refs)
  {
    if refs == [] {
      GroupedNothing(Order(keys));
    } else {
      var n := |keys| - 1;
      var before := Order(keys[..n]);
      assert refs == refs[..n] + [refs[n]];
      assert keys[n] in keys;
      GroupsPartition(keys[..n], refs[..n]);
      OrderDistinct(keys);
      GroupedNext(keys, refs, Order(keys));
      if keys[n] !in before {
        GroupedMore(keys[..n], refs[..n], before, keys[n]);
      }
    }
  }

  /** A group holds exactly the spans of its trace. */
  lemma {:induction false} MembersExactly(keys: seq<Id>, refs: seq<SpanRef>, id: Id, r: SpanRef)
    requires |keys| == |refs|
    ensures r in Members(keys, refs, id) <==> exists i :: 0 <= i < |refs| && refs[i] == r && keys[i] == id
  {
    if refs != [] {
      var n := |refs| - 1;
      MembersExactly(keys[..n], refs[..n], id, r);
      if r in Members(keys[..n], refs[..n], id) {
        var i :| 0 <= i < n && refs[..n][i] == r && keys[..n][i] == id;
        assert refs[i] == r && keys[i] == id;
      }
      if i :| 0 <= i < |refs| && refs[i] == r && keys[i] == id {
        assert i < n ==> refs[..n][i] == r && keys[..n][i] == id;
      }
    }
  }

  /** Traces come out in the order of their first spans: the earlier one has appeared before the later one has. */
  lemma {:induction false} OrderIsFirstAppearance(keys: seq<Id>, g: nat, h: nat)
    requires g < h < |Order(keys)|
    ensures exists p :: 0 <= p < |keys| && keys[p] == Order(keys)[g] && Order(keys)[h] !in keys[..p + 1]
  {
    var n := |keys| - 1;
    var before := Order(keys[..n]);
    if h < |before| {
      OrderIsFirstAppearance(keys[..n], g, h);
      var p :| 0 <= p < n && keys[..n][p] == before[g] && before[h] !in keys[..n][..p + 1];
      assert keys[..n][..p + 1] == keys[..p + 1];
    } else {
      assert before[g] in before;
      var p :| 0 <= p < n && keys[..n][p] == before[g];
      assert forall k :: k in keys[..p + 1] ==> k in keys[..n];
    }
  }

  /** Detection runs on a span exactly if no earlier span of its trace had a verdict. */
  lemma {:induction false} DetectedExactly(keys: seq<Id>, verdicts: seq<byte>, i: nat)
    requires |keys| == |verdicts|
    ensures i in Detected(keys, verdicts) <==> i < |keys| && forall k :: 0 <= k < i && keys[k] == keys[i] ==> verdicts[k] == 0
  {
    if keys != [] {
      var n := |keys| - 1;
      DetectedExactly(keys[..n], verdicts[..n], i);
      NoReasonIff(keys[..n], verdicts[..n], keys[n]);
    }
  }

  lemma {:induction false} NoReasonIff(keys: seq<Id>, verdicts: seq<byte>, id: Id)
    requires |keys| == |verdicts|
    ensures FirstReason(keys, verdicts, id) == 0 <==> forall k :: 0 <= k < |keys| && keys[k] == id ==> verdicts[k] == 0
  {
    if keys != [] {
      NoReasonIff(keys[..|keys| - 1], verdicts[..|keys| - 1], id);
    }
  }

  /** In batch order: by resource, then scope, then span. */
  predicate Before(a: SpanRef, b: SpanRef) {
    a.rs < b.rs || (a.rs == b.rs && (a.ss < b.ss || (a.ss == b.ss && a.sp < b.sp)))
  }

  ghost predicate InBatchOrder(refs: seq<SpanRef>) {
    forall i, j :: 0 <= i < j < |refs| ==> Before(refs[i], refs[j])
  }

  lemma OrderJoin(a: seq<SpanRef>, b: seq<SpanRef>)
    requires InBatchOrder(a) && InBatchOrder(b)
    requires forall x, y :: x in a && y in b ==> Before(x, y)
    ensures InBatchOrder(a + b)
  {
    var c := a + b;
    forall i, j | 0 <= i < j < |c|
      ensures Before(c[i], c[j])
    {
      if i < |a| <= j {
        assert a[i] in a && b[j - |a|] in b;
      }
    }
  }

  lemma {:induction false} SpansInOrder(rs: nat, ss: nat, n: nat)
    ensures InBatchOrder(SpansOf(rs, ss, n))
    ensures forall r :: r in SpansOf(rs, ss, n) <==> r.rs == rs && r.ss == ss && r.sp < n
  {
    if n > 0 {
      hide Before;
      SpansInOrder(rs, ss, n - 1);
      LaterSpan(rs, ss, n - 1);
      OrderJoin(SpansOf(rs, ss, n - 1), [SpanRef(rs, ss, n - 1)]);
    }
  }

  lemma LaterSpan(rs: nat, ss: nat, n: nat)
    ensures forall r: SpanRef :: r.rs == rs && r.ss == ss && r.sp < n ==> Before(r, SpanRef(rs, ss, n))
  {
  }

  lemma {:induction false} ScopesInOrder(scopes: seq<ScopeSpans>, rs: nat, n: nat)
    requires n <= |scopes|
    ensures InBatchOrder(ScopesOf(scopes, rs, n))
    ensures forall r :: r in ScopesOf(scopes, rs, n) <==> r.rs == rs && r.ss < n && r.sp < |scopes[r.ss].spans|
  {
    if n > 0 {
      hide SpansOf, InBatchOrder;
      ScopesInOrder(scopes, rs, n - 1);
      SpansInOrder(rs, n - 1, |scopes[n - 1].spans|);
      OrderJoin(ScopesOf(scopes, rs, n - 1), SpansOf(rs, n - 1, |scopes[n - 1].spans|));
    }
  }

  /** The spans of a batch are visited exactly once each, in batch order. */
  lemma {:induction false} RefsAreTheBatch(td: Batch, n: nat)
    requires n <= |td|
    ensures InBatchOrder(RefsOf(td, n))
    ensures forall r :: r in RefsOf(td, n) <==> r.rs < n && Names(td, r)
  {
    if n > 0 {
      hide ScopesOf, InBatchOrder;
      RefsAreTheBatch(td, n - 1);
      ScopesInOrder(td[n - 1].scopes, n - 1, |td[n - 1].scopes|);
      OrderJoin(RefsOf(td, n - 1), ScopesOf(td[n - 1].scopes, n - 1, |td[n - 1].scopes|));
    }
  }

  // ------------------------------------------------------------- ref chains

  /** A reference in the arena; `next` chains the references of one trace, -1 at the end. */
  datatype Chained = Chained(r: SpanRef, next: int)

  function Plain(refs: seq<Chained>): (r: seq<SpanRef>)
    ensures |r| == |refs|
    ensures forall i :: 0 <= i < |refs| ==> r[i] == refs[i].r
  {
    seq(|refs|, i requires 0 <= i < |refs| => refs[i].r)
  }

  /** Where the spans of `id` sit in the arena. */
  function Positions(keys: seq<Id>, id: Id): (ps: seq<nat>)
    ensures forall i :: 0 <= i < |ps| ==> ps[i] < |keys| && keys[ps[i]] == id
    ensures forall i, j :: 0 <= i < j < |ps| ==> ps[i] < ps[j]
    ensures id in keys ==> ps != []
  {
    if keys == [] then []
    else
      var n := |keys| - 1;
      assert keys == keys[..n] + [keys[n]];
      Positions(keys[..n], id) + if keys[n] == id then [n] else []
  }

  lemma PositionsNext(keys: seq<Id>, key: Id, id: Id)
    ensures Positions(keys + [key], id) == if key == id then Positions(keys, id) + [|keys|] else Positions(keys, id)
  {
    assert (keys + [key])[..|keys|] == keys;
  }

  /** The chain from `head` to `tail` visits these positions in order. */
  ghost predicate ChainOk(refs: seq<Chained>, ps: seq<nat>, head: int, tail: int) {
    && ps != [] && head == ps[0] && tail == ps[|ps| - 1]
    && (forall k {:trigger ps[k]} :: 0 <= k < |ps| ==> ps[k] < |refs|)
    && (forall k {:trigger refs[ps[k]]} :: 0 <= k < |ps| ==> refs[ps[k]].next == if k + 1 < |ps| then ps[k + 1] else -1)
  }

  lemma ChainStarts(refs: seq<Chained>, ps: seq<nat>, head: int, tail: int)
    requires ChainOk(refs, ps, head, tail)
    ensures ps != [] && head == ps[0]
  {
  }

  lemma ChainGoes(refs: seq<Chained>, ps: seq<nat>, head: int, tail: int, k: nat)
    requires ChainOk(refs, ps, head, tail) && k < |ps|
    ensures ps[k] < |refs| && refs[ps[k]].next == if k + 1 < |ps| then ps[k + 1] else -1
  {
  }

  /** Linking a new reference behind the tail extends that chain. */
  lemma ExtendChain(refs: seq<Chained>, ps: seq<nat>, head: int, tail: int, r: SpanRef)
    requires ChainOk(refs, ps, head, tail) && 0 <= tail < |refs|
    requires forall i, j :: 0 <= i < j < |ps| ==> ps[i] < ps[j]
    ensures ChainOk(refs[tail := refs[tail].(next := |refs|)] + [Chained(r, -1)], ps + [|refs|], head, |refs|)
  {
    var refs', ps' := refs[tail := refs[tail].(next := |refs|)] + [Chained(r, -1)], ps + [|refs|];
    forall k | 0 <= k < |ps'|
      ensures ps'[k] < |refs'| && refs'[ps'[k]].next == if k + 1 < |ps'| then ps'[k + 1] else -1
    {
      if k < |ps| - 1 {
        assert ps'[k] == ps[k] < tail && refs[ps[k]].next == ps[k + 1];
      }
    }
  }

  /** A chain that does not pass through `tail` is not affected. */
  lemma OtherChain(refs: seq<Chained>, ps: seq<nat>, head: int, last: int, tail: int, r: SpanRef)
    requires ChainOk(refs, ps, head, last) && 0 <= tail < |refs|
    requires forall k :: 0 <= k < |ps| ==> ps[k] != tail
    ensures ChainOk(refs[tail := refs[tail].(next := |refs|)] + [Chained(r, -1)], ps, head, last)
  {
  }

  lemma ChainOfOne(refs: seq<Chained>, r: SpanRef)
    ensures ChainOk(refs + [Chained(r, -1)], [] + [|refs|], |refs|, |refs|)
  {
  }

  lemma LongerArena(refs: seq<Chained>, ps: seq<nat>, head: int, last: int, r: SpanRef)
    requires ChainOk(refs, ps, head, last)
    ensures ChainOk(refs + [Chained(r, -1)], ps, head, last)
  {
  }

  /** The references at a trace's positions are its members. */
  lemma {:induction false} MembersAt(keys: seq<Id>, refs: seq<SpanRef>, id: Id)
    requires |keys| == |refs|
    ensures |Members(keys, refs, id)| == |Positions(keys, id)|
    ensures forall k :: 0 <= k < |Positions(keys, id)| ==> Members(keys, refs, id)[k] == refs[Positions(keys, id)[k]]
  {
    if refs != [] {
      var n := |refs| - 1;
      var ps, ms := Positions(keys[..n], id), Members(keys[..n], refs[..n], id);
      MembersAt(keys[..n], refs[..n], id);
      assert Positions(keys, id) == ps + if keys[n] == id then [n] else [];
      assert Members(keys, refs, id) == ms + if keys[n] == id then [refs[n]] else [];
      hide Positions, Members;
      forall k | 0 <= k < |ps|
        ensures ms[k] == refs[ps[k]]
      {
        assert refs[..n][ps[k]] == refs[ps[k]];
      }
    }
  }

  lemma OrderNext(keys: seq<Id>, key: Id)
    ensures Order(keys + [key]) == if key in Order(keys) then Order(keys) else Order(keys) + [key]
  {
    assert (keys + [key])[..|keys|] == keys;
  }

  lemma ReasonNext(keys: seq<Id>, verdicts: seq<byte>, key: Id, verdict: byte, id: Id)
    requires |keys| == |verdicts|
    ensures FirstReason(keys + [key], verdicts + [verdict], id)
         == var before := FirstReason(keys, verdicts, id); if before != 0 then before else if key == id then verdict else 0
  {
    assert (keys + [key])[..|keys|] == keys && (verdicts + [verdict])[..|keys|] == verdicts;
  }

  lemma DetectedNext(keys: seq<Id>, verdicts: seq<byte>, key: Id, verdict: byte)
    requires |keys| == |verdicts|
    ensures Detected(keys + [key], verdicts + [verdict])
         == Detected(keys, verdicts) + if FirstReason(keys, verdicts, key) == 0 then [|keys|] else []
  {
    assert (keys + [key])[..|keys|] == keys && (verdicts + [verdict])[..|keys|] == verdicts;
  }

  // ------------------------------------------------------------------ groups

  ghost predicate GroupsOk(groups: map<Id, nat>, ids: seq<Id>, keys: seq<Id>) {
    && ids == Order(keys)
    && (forall g :: 0 <= g < |ids| ==> ids[g] in groups && groups[ids[g]] == g)
    && (forall id :: id in groups ==> groups[id] < |ids| && ids[groups[id]] == id)
  }

  ghost predicate ChainsOk(refs: seq<Chained>, keys: seq<Id>, ids: seq<Id>, heads: seq<int>, tails: seq<int>) {
    && |keys| == |refs|
    && |heads| == |tails| == |ids|
    && (forall g :: 0 <= g < |ids| ==> ChainOk(refs, Positions(keys, ids[g]), heads[g], tails[g]))
  }

  ghost predicate VerdictsOk(keys: seq<Id>, verdicts: seq<byte>, ids: seq<Id>, reasons: seq<byte>, bases: seq<bool>, baseline: Id -> bool) {
    && |keys| == |verdicts|
    && |reasons| == |bases| == |ids|
    && (forall g :: 0 <= g < |ids| ==> reasons[g] == FirstReason(keys, verdicts, ids[g]))
    && (forall g :: 0 <= g < |ids| ==> bases[g] == baseline(ids[g]))
  }

  lemma VerdictLengths(keys: seq<Id>, verdicts: seq<byte>, ids: seq<Id>, reasons: seq<byte>, bases: seq<bool>, baseline: Id -> bool)
    requires VerdictsOk(keys, verdicts, ids, reasons, bases, baseline)
    ensures |keys| == |verdicts| && |reasons| == |bases| == |ids|
  {
  }

  lemma ArenaLength(refs: seq<Chained>, keys: seq<Id>, ids: seq<Id>, heads: seq<int>, tails: seq<int>)
    requires ChainsOk(refs, keys, ids, heads, tails)
    ensures |keys| == |refs|
  {
  }

  lemma GroupKnown(groups: map<Id, nat>, ids: seq<Id>, keys: seq<Id>, id: Id)
    requires GroupsOk(groups, ids, keys)
    ensures ids == Order(keys)
    ensures id in groups <==> id in ids
    ensures id in groups ==> groups[id] < |ids| && ids[groups[id]] == id
  {
    if id in ids {
      var g :| 0 <= g < |ids| && ids[g] == id;
    }
  }

  lemma PlainNext(refs: seq<Chained>, t: int, next: int, r: SpanRef)
    ensures Plain(refs + [Chained(r, -1)]) == Plain(refs) + [r]
    ensures 0 <= t < |refs| ==> Plain(refs[t := refs[t].(next := next)] + [Chained(r, -1)]) == Plain(refs) + [r]
  {
  }

  lemma StartGroup(groups: map<Id, nat>, refs: seq<Chained>, keys: seq<Id>, ids: seq<Id>, heads: seq<int>, tails: seq<int>, r: SpanRef, id: Id)
    requires GroupsOk(groups, ids, keys) && ChainsOk(refs, keys, ids, heads, tails) && id !in ids
    ensures GroupsOk(groups[id := |ids|], ids + [id], keys + [id])
    ensures ChainsOk(refs + [Chained(r, -1)], keys + [id], ids + [id], heads + [|refs|], tails + [|refs|])
    ensures Plain(refs + [Chained(r, -1)]) == Plain(refs) + [r]
  {
    hide GroupsOk, ChainsOk, Plain, Order;
    PlainNext(refs, 0, 0, r);
    StartIds(groups, keys, ids, id);
    StartChains(refs, keys, ids, heads, tails, r, id);
  }

  lemma StartIds(groups: map<Id, nat>, keys: seq<Id>, ids: seq<Id>, id: Id)
    requires GroupsOk(groups, ids, keys) && id !in ids
    ensures ids == Order(keys) && GroupsOk(groups[id := |ids|], ids + [id], keys + [id])
  {
    hide Order;
    OrderNext(keys, id);
    assert forall g :: 0 <= g < |ids| ==> ids[g] in ids;
  }

  lemma StartChains(refs: seq<Chained>, keys: seq<Id>, ids: seq<Id>, heads: seq<int>, tails: seq<int>, r: SpanRef, id: Id)
    requires ids == Order(keys) && ChainsOk(refs, keys, ids, heads, tails) && id !in ids
    ensures ChainsOk(refs + [Chained(r, -1)], keys + [id], ids + [id], heads + [|refs|], tails + [|refs|])
  {
    hide Positions, ChainOk, Order;
    forall g | 0 <= g < |ids|
      ensures ChainOk(refs + [Chained(r, -1)], Positions(keys + [id], ids[g]), heads[g], tails[g])
    {
      assert ids[g] in ids;
      PositionsNext(keys, id, ids[g]);
      LongerArena(refs, Positions(keys, ids[g]), heads[g], tails[g], r);
    }
    PositionsNext(keys, id, id);
    NoPositions(keys, id);
    ChainOfOne(refs, r);
  }

  lemma JoinGroup(groups: map<Id, nat>, refs: seq<Chained>, keys: seq<Id>, ids: seq<Id>, heads: seq<int>, tails: seq<int>, r: SpanRef, id: Id, g: nat)
    requires GroupsOk(groups, ids, keys) && ChainsOk(refs, keys, ids, heads, tails) && g < |ids| && ids[g] == id
    ensures g < |tails| && 0 <= tails[g] < |refs|
    ensures GroupsOk(groups, ids, keys + [id])
    ensures var refs' := refs[tails[g] := refs[tails[g]].(next := |refs|)] + [Chained(r, -1)];
            ChainsOk(refs', keys + [id], ids, heads, tails[g := |refs|]) && Plain(refs') == Plain(refs) + [r]
  {
    OrderNext(keys, id);
    assert id in ids;
    TailInside(refs, keys, id, heads[g], tails[g]);
    PlainNext(refs, tails[g], |refs|, r);
    JoinChains(refs, keys, ids, heads, tails, r, id, g);
  }

  lemma JoinChains(refs: seq<Chained>, keys: seq<Id>, ids: seq<Id>, heads: seq<int>, tails: seq<int>, r: SpanRef, id: Id, g: nat)
    requires ids == Order(keys) && ChainsOk(refs, keys, ids, heads, tails) && g < |ids| && ids[g] == id && 0 <= tails[g] < |refs|
    ensures ChainsOk(refs[tails[g] := refs[tails[g]].(next := |refs|)] + [Chained(r, -1)], keys + [id], ids, heads, tails[g := |refs|])
  {
    hide Positions, ChainOk;
    OrderDistinct(keys);
    PositionsNext(keys, id, id);
    ExtendChain(refs, Positions(keys, id), heads[g], tails[g], r);
    TailInside(refs, keys, id, heads[g], tails[g]);
    forall h | 0 <= h < |ids| && h != g
      ensures ChainOk(refs[tails[g] := refs[tails[g]].(next := |refs|)] + [Chained(r, -1)], Positions(keys + [id], ids[h]), heads[h], tails[h])
    {
      PositionsNext(keys, id, ids[h]);
      assert ids[h] != id;
      OtherChain(refs, Positions(keys, ids[h]), heads[h], tails[h], tails[g], r);
    }
  }

  /** One more span of a known trace: its group's reason stays if it has one, else becomes this span's verdict. */
  lemma VerdictKnown(keys: seq<Id>, verdicts: seq<byte>, ids: seq<Id>, reasons: seq<byte>, bases: seq<bool>, baseline: Id -> bool,
                     id: Id, verdict: byte, g: nat)
    requires VerdictsOk(keys, verdicts, ids, reasons, bases, baseline) && ids == Order(keys) && g < |ids| && ids[g] == id
    ensures reasons[g] == FirstReason(keys, verdicts, id)
    ensures VerdictsOk(keys + [id], verdicts + [verdict], ids, if reasons[g] == 0 then reasons[g := verdict] else reasons, bases, baseline)
  {
    hide FirstReason, Order;
    OrderDistinct(keys);
    forall h | 0 <= h < |ids|
      ensures h != g ==> FirstReason(keys + [id], verdicts + [verdict], ids[h]) == reasons[h]
    {
      ReasonNext(keys, verdicts, id, verdict, ids[h]);
    }
    ReasonNext(keys, verdicts, id, verdict, id);
  }

  lemma VerdictNew(keys: seq<Id>, verdicts: seq<byte>, ids: seq<Id>, reasons: seq<byte>, bases: seq<bool>, baseline: Id -> bool, id: Id, verdict: byte)
    requires VerdictsOk(keys, verdicts, ids, reasons, bases, baseline) && ids == Order(keys) && id !in ids
    ensures FirstReason(keys, verdicts, id) == 0
    ensures VerdictsOk(keys + [id], verdicts + [verdict], ids + [id], reasons + [verdict], bases + [baseline(id)], baseline)
  {
    hide FirstReason, Order;
    NoReason(keys, verdicts, id);
    forall h | 0 <= h < |ids|
      ensures FirstReason(keys + [id], verdicts + [verdict], ids[h]) == reasons[h]
    {
      ReasonNext(keys, verdicts, id, verdict, ids[h]);
    }
    ReasonNext(keys, verdicts, id, verdict, id);
  }

  /** One more span of a trace, whose group is new or not: what is left to do to its reason. */
  lemma VerdictAdded(keys: seq<Id>, verdicts: seq<byte>, ids: seq<Id>, reasons: seq<byte>, bases: seq<bool>, baseline: Id -> bool,
                     id: Id, verdict: byte, ids': seq<Id>, reasons': seq<byte>, bases': seq<bool>, g: nat)
    requires VerdictsOk(keys, verdicts, ids, reasons, bases, baseline) && ids == Order(keys)
    requires ids' == (if id in ids then ids else ids + [id]) && g < |ids'| && ids'[g] == id
    requires |reasons| == |bases| == |ids|
    requires reasons' == (if id in ids then reasons else reasons + [0])
    requires bases' == (if id in ids then bases else bases + [baseline(id)])
    ensures |keys| == |verdicts| && |reasons'| == |ids'| && reasons'[g] == FirstReason(keys, verdicts, id)
    ensures VerdictsOk(keys + [id], verdicts + [verdict], ids', if reasons'[g] == 0 then reasons'[g := verdict] else reasons', bases', baseline)
  {
    hide VerdictsOk, FirstReason, Order;
    VerdictLengths(keys, verdicts, ids, reasons, bases, baseline);
    if id in ids {
      VerdictKnown(keys, verdicts, ids, reasons, bases, baseline, id, verdict, g);
    } else {
      VerdictNew(keys, verdicts, ids, reasons, bases, baseline, id, verdict);
      NewGroupIsLast(ids, id, g);
      assert (reasons + [0])[g := verdict] == reasons + [verdict];
    }
  }

  lemma NewGroupIsLast(ids: seq<Id>, id: Id, g: nat)
    requires id !in ids && g < |ids + [id]| && (ids + [id])[g] == id
    ensures g == |ids|
  {
  }

  // ---------------------------------------------------------------- the class

  /** One fragment handed to the caller. */
  datatype Output = Output(id: Id, frag: seq<byte>, reason: byte, base: bool)

  /** The batch behind the references: each one's trace, and the verdict detection has for it. */
  ghost predicate Describes(td: Batch, detect: SpanRef -> byte, refs: seq<SpanRef>, keys: seq<Id>, verdicts: seq<byte>) {
    && |keys| == |verdicts| == |refs|
    && (forall p :: 0 <= p < |refs| ==> Names(td, refs[p]))
    && (forall p :: 0 <= p < |refs| ==> keys[p] == IdAt(td, refs[p]))
    && (forall p :: 0 <= p < |refs| ==> verdicts[p] == detect(refs[p]))
  }

  lemma DescribesNext(td: Batch, detect: SpanRef -> byte, refs: seq<SpanRef>, keys: seq<Id>, verdicts: seq<byte>, r: SpanRef)
    requires Describes(td, detect, refs, keys, verdicts) && Names(td, r)
    ensures Describes(td, detect, refs + [r], keys + [IdAt(td, r)], verdicts + [detect(r)])
  {
    hide Names, IdAt;
  }

  lemma {:induction false} MembersNamed(td: Batch, detect: SpanRef -> byte, refs: seq<SpanRef>, keys: seq<Id>, verdicts: seq<byte>, id: Id)
    requires Describes(td, detect, refs, keys, verdicts)
    ensures NameBatch(td, Members(keys, refs, id))
  {
    var ms := Members(keys, refs, id);
    forall i | 0 <= i < |ms|
      ensures Names(td, ms[i])
    {
      MembersExactly(keys, refs, id, ms[i]);
    }
  }

  /** What the caller is handed for one trace. */
  ghost predicate IsOutput(td: Batch, baseline: Id -> bool, refs: seq<SpanRef>, keys: seq<Id>, verdicts: seq<byte>, id: Id, out: Output) {
    && |keys| == |verdicts| == |refs|
    && out.id == id
    && NameBatch(td, Members(keys, refs, id)) && out.frag == EncItems(GroupItems(td, Members(keys, refs, id)))
    && out.reason == FirstReason(keys, verdicts, id)
    && out.base == baseline(id)
  }

  class Fragmenter {
    const scratch: Enc
    var groups: map<Id, nat>
    var ids: seq<Id>
    var heads: seq<int>
    var tails: seq<int>
    var reasons: seq<byte>
    var bases: seq<bool>
    var refs: seq<Chained>
    /** Every span's trace and the verdict detection has, or would have, for it. */
    ghost var keys: seq<Id>
    ghost var verdicts: seq<byte>
    /** The spans detection was run on, and the traces the baseline was asked about. */
    ghost var detected: seq<nat>
    ghost var baselined: seq<Id>

    ghost predicate Valid(baseline: Id -> bool)
      reads this
    {
      && GroupsOk(groups, ids, keys)
      && ChainsOk(refs, keys, ids, heads, tails)
      && VerdictsOk(keys, verdicts, ids, reasons, bases, baseline)
      && detected == Detected(keys, verdicts) && baselined == ids
    }

    constructor ()
      ensures groups == map[] && ids == [] && refs == [] && fresh(scratch)
    {
      scratch := new Enc();
      groups, ids, heads, tails, reasons, bases, refs := map[], [], [], [], [], [], [];
    }

    method Clear(ghost baseline: Id -> bool)
      modifies this
      ensures Valid(baseline) && keys == [] && verdicts == [] && refs == []
    {
      hide GroupsOk, ChainsOk, VerdictsOk, Detected;
      NothingGrouped(baseline);
      groups, ids, heads, tails, reasons, bases, refs := map[], [], [], [], [], [], [];
      keys, verdicts, detected, baselined := [], [], [], [];
    }

    /** Chain one reference into its trace's group, creating the group at its first span. */
    method Chain(r: SpanRef, id: Id, baseline: Id -> bool) returns (g: nat)
      requires GroupsOk(groups, ids, keys) && ChainsOk(refs, keys, ids, heads, tails) && |reasons| == |bases| == |ids|
      modifies this`groups, this`ids, this`heads, this`tails, this`reasons, this`bases, this`refs, this`keys, this`baselined
      ensures GroupsOk(groups, ids, keys) && ChainsOk(refs, keys, ids, heads, tails)
      ensures keys == old(keys) + [id] && Plain(refs) == old(Plain(refs)) + [r] && |refs| == old(|refs|) + 1
      ensures g < |ids| && ids[g] == id
      ensures ids == (if id in old(ids) then old(ids) else old(ids) + [id])
      ensures reasons == (if id in old(ids) then old(reasons) else old(reasons) + [0])
      ensures bases == (if id in old(ids) then old(bases) else old(bases) + [baseline(id)])
      ensures baselined == (if id in old(ids) then old(baselined) else old(baselined) + [id])
    {
      hide GroupsOk, ChainsOk, Plain;
      GroupKnown(groups, ids, keys, id);
      var n := |refs|;
      if id !in groups {
        StartGroup(groups, refs, keys, ids, heads, tails, r, id);
        g := |ids|;
        groups, ids := groups[id := g], ids + [id];
        heads, tails, refs := heads + [n], tails + [n], refs + [Chained(r, -1)];
        reasons, bases := reasons + [0], bases + [baseline(id)];
        keys, baselined := keys + [id], baselined + [id];
      } else {
        g := groups[id];
        JoinGroup(groups, refs, keys, ids, heads, tails, r, id, g);
        var t := tails[g];
        refs := refs[t := refs[t].(next := n)] + [Chained(r, -1)];
        tails := tails[g := n];
        keys := keys + [id];
      }
    }

    /** One span of the batch: chained into its group, and detected unless its trace has a verdict. */
    method Add(r: SpanRef, id: Id, detect: SpanRef -> byte, baseline: Id -> bool)
      requires Valid(baseline)
      modifies this
      ensures Valid(baseline)
      ensures keys == old(keys) + [id] && verdicts == old(verdicts) + [detect(r)] && Plain(refs) == old(Plain(refs)) + [r]
    {
      hide GroupsOk, ChainsOk, VerdictsOk, Detected, FirstReason, Order, Plain;
      VerdictLengths(keys, verdicts, ids, reasons, bases, baseline);
      ArenaLength(refs, keys, ids, heads, tails);
      DetectedNext(keys, verdicts, id, detect(r));
      GroupKnown(groups, ids, keys, id);
      ghost var keys0, ids0, reasons0, bases0 := keys, ids, reasons, bases;
      var g := Chain(r, id, baseline);
      VerdictAdded(keys0, verdicts, ids0, reasons0, bases0, baseline, id, detect(r), ids, reasons, bases, g);
      if reasons[g] == 0 {
        reasons := reasons[g := detect(r)];
        detected := detected + [|refs| - 1];
      }
      verdicts := verdicts + [detect(r)];
    }

    /** The spans of one scope. */
    method AddScope(td: Batch, i: nat, j: nat, detect: SpanRef -> byte, baseline: Id -> bool)
      requires i < |td| && j < |td[i].scopes|
      requires Valid(baseline) && Describes(td, detect, Plain(refs), keys, verdicts)
      modifies this
      ensures Valid(baseline) && Describes(td, detect, Plain(refs), keys, verdicts)
      ensures Plain(refs) == old(Plain(refs)) + SpansOf(i, j, |td[i].scopes[j].spans|)
    {
      hide Valid, Describes, Plain, SpansOf;
      var spans := td[i].scopes[j].spans;
      NoSpans(i, j);
      var k := 0;
      while k < |spans|
        invariant 0 <= k <= |spans|
        invariant Valid(baseline) && Describes(td, detect, Plain(refs), keys, verdicts)
        invariant Plain(refs) == old(Plain(refs)) + SpansOf(i, j, k)
      {
        var r := SpanRef(i, j, k);
        DescribesNext(td, detect, Plain(refs), keys, verdicts, r);
        StepSpan(i, j, k);
        Add(r, spans[k].traceId, detect, baseline);
        k := k + 1;
      }
    }

    /** The spans of one resource. */
    method AddResource(td: Batch, i: nat, detect: SpanRef -> byte, baseline: Id -> bool)
      requires i < |td|
      requires Valid(baseline) && Describes(td, detect, Plain(refs), keys, verdicts)
      modifies this
      ensures Valid(baseline) && Describes(td, detect, Plain(refs), keys, verdicts)
      ensures Plain(refs) == old(Plain(refs)) + ScopesOf(td[i].scopes, i, |td[i].scopes|)
    {
      hide Valid, Describes, Plain, SpansOf;
      var j := 0;
      while j < |td[i].scopes|
        invariant 0 <= j <= |td[i].scopes|
        invariant Valid(baseline) && Describes(td, detect, Plain(refs), keys, verdicts)
        invariant Plain(refs) == old(Plain(refs)) + ScopesOf(td[i].scopes, i, j)
      {
        AddScope(td, i, j, detect, baseline);
        j := j + 1;
      }
    }

    /**
     Group the batch by trace and hand back one fragment per trace, in order of
     first appearance: its spans in batch order, the first verdict among them,
     and its baseline verdict, asked once.
     */
    method Fragment(td: Batch, detect: SpanRef -> byte, baseline: Id -> bool) returns (out: seq<Output>)
      modifies this, scratch
      ensures Describes(td, detect, RefsOf(td, |td|), keys, verdicts)
      ensures |out| == |Order(keys)|
      ensures forall g :: 0 <= g < |out| ==> IsOutput(td, baseline, RefsOf(td, |td|), keys, verdicts, Order(keys)[g], out[g])
      ensures detected == Detected(keys, verdicts) && baselined == Order(keys)
    {
      hide Describes, Plain, ScopesOf, IsOutput, Order, Detected;
      Clear(baseline);
      NothingDescribed(td, detect);
      assert Valid(baseline);
      hide Valid;
      var i := 0;
      while i < |td|
        invariant 0 <= i <= |td|
        invariant Valid(baseline) && Describes(td, detect, Plain(refs), keys, verdicts)
        invariant Plain(refs) == RefsOf(td, i)
      {
        AddResource(td, i, detect, baseline);
        i := i + 1;
      }
      out := Emit(td, detect, baseline);
    }

    method Emit(td: Batch, ghost detect: SpanRef -> byte, ghost baseline: Id -> bool) returns (out: seq<Output>)
      requires Valid(baseline) && Describes(td, detect, Plain(refs), keys, verdicts)
      modifies scratch
      ensures |out| == |Order(keys)|
      ensures forall g :: 0 <= g < |out| ==> IsOutput(td, baseline, Plain(refs), keys, verdicts, Order(keys)[g], out[g])
      ensures detected == Detected(keys, verdicts) && baselined == Order(keys)
    {
      hide Describes, Plain, Members, GroupItems, EncItems, FirstReason, Order, Detected, ChainOk, NameBatch, VerdictsOk, ChainsOk, IsOutput;
      DescribedLengths(td, detect, Plain(refs), keys, verdicts);
      VerdictLengths(keys, verdicts, ids, reasons, bases, baseline);
      out := [];
      var g := 0;
      while g < |ids|
        invariant 0 <= g <= |ids| && |out| == g
        invariant forall h :: 0 <= h < g ==> IsOutput(td, baseline, Plain(refs), keys, verdicts, ids[h], out[h])
      {
        var flat := Flatten(g);
        MembersNamed(td, detect, Plain(refs), keys, verdicts, ids[g]);
        scratch.b := [];
        scratch.PutGroup(td, flat);
        assert scratch.b == EncItems(GroupItems(td, flat));
        OutputIs(td, baseline, Plain(refs), keys, verdicts, ids, reasons, bases, g);
        out := out + [Output(ids[g], scratch.b, reasons[g], bases[g])];
        g := g + 1;
      }
    }

    /** Walk one group's chain. */
    method Flatten(g: nat) returns (flat: seq<SpanRef>)
      requires ChainsOk(refs, keys, ids, heads, tails) && g < |ids|
      ensures flat == Members(keys, Plain(refs), ids[g])
    {
      hide Positions, Members, ChainOk;
      ghost var ps, ms := Positions(keys, ids[g]), Members(keys, Plain(refs), ids[g]);
      MembersAt(keys, Plain(refs), ids[g]);
      assert ChainOk(refs, ps, heads[g], tails[g]);
      ChainStarts(refs, ps, heads[g], tails[g]);
      flat := [];
      var r := heads[g];
      ghost var k := 0;
      while r >= 0
        invariant 0 <= k <= |ps| == |ms| && flat == ms[..k]
        invariant r == if k < |ps| then ps[k] else -1
        decreases |ps| - k
      {
        ChainGoes(refs, ps, heads[g], tails[g], k);
        assert ms[k] == refs[r].r;
        flat := flat + [refs[r].r];
        r := refs[r].next;
        k := k + 1;
      }
    }
  }

  lemma OutputIs(td: Batch, baseline: Id -> bool, refs: seq<SpanRef>, keys: seq<Id>, verdicts: seq<byte>,
                 ids: seq<Id>, reasons: seq<byte>, bases: seq<bool>, g: nat)
    requires VerdictsOk(keys, verdicts, ids, reasons, bases, baseline) && |refs| == |keys| && g < |ids|
    requires NameBatch(td, Members(keys, refs, ids[g]))
    ensures |reasons| == |bases| == |ids|
    ensures IsOutput(td, baseline, refs, keys, verdicts, ids[g],
                     Output(ids[g], EncItems(GroupItems(td, Members(keys, refs, ids[g]))), reasons[g], bases[g]))
  {
    hide FirstReason, GroupItems, EncItems, Members, NameBatch;
  }

  lemma NothingGrouped(baseline: Id -> bool)
    ensures GroupsOk(map[], [], []) && ChainsOk([], [], [], [], []) && VerdictsOk([], [], [], [], [], baseline) && Detected([], []) == []
  {
  }

  lemma NoSpans(rs: nat, ss: nat)
    ensures SpansOf(rs, ss, 0) == []
  {
  }

  lemma NothingDescribed(td: Batch, detect: SpanRef -> byte)
    ensures Describes(td, detect, [], [], []) && Plain([]) == []
  {
  }

  lemma DescribedLengths(td: Batch, detect: SpanRef -> byte, refs: seq<SpanRef>, keys: seq<Id>, verdicts: seq<byte>)
    requires Describes(td, detect, refs, keys, verdicts)
    ensures |keys| == |verdicts| == |refs|
  {
  }

  lemma StepSpan(rs: nat, ss: nat, n: nat)
    ensures SpansOf(rs, ss, n + 1) == SpansOf(rs, ss, n) + [SpanRef(rs, ss, n)]
  {
  }

  lemma TailInside(refs: seq<Chained>, keys: seq<Id>, id: Id, head: int, tail: int)
    requires |keys| == |refs| && ChainOk(refs, Positions(keys, id), head, tail)
    ensures 0 <= tail < |refs| && keys[tail] == id
  {
    hide Positions;
  }

  lemma {:induction false} NoPositions(keys: seq<Id>, id: Id)
    requires id !in keys
    ensures Positions(keys, id) == []
  {
    if keys != [] {
      var n := |keys| - 1;
      assert keys[n] in keys;
      assert forall k :: k in keys[..n] ==> k in keys;
      NoPositions(keys[..n], id);
    }
  }

  lemma NoReason(keys: seq<Id>, verdicts: seq<byte>, id: Id)
    requires |keys| == |verdicts|
    ensures id !in Order(keys) ==> FirstReason(keys, verdicts, id) == 0
  {
    if id !in Order(keys) {
      forall k | 0 <= k < |keys|
        ensures keys[k] != id
      {
        assert keys[k] in keys;
      }
      NoReasonYet(keys, verdicts, id);
    }
  }

  /**
   Each fragment decodes to its trace's spans, in batch order and each under its
   own resource and scope, if and only if no bytes value inside is empty.
   */
  lemma OutputDecodes(td: Batch, baseline: Id -> bool, refs: seq<SpanRef>, keys: seq<Id>, verdicts: seq<byte>, id: Id, out: Output)
    requires IsOutput(td, baseline, refs, keys, verdicts, id, out)
    ensures var ms := Members(keys, refs, id);
            && Flat(RunsOf(td, ms)) == Selected(td, ms)
            && (DecodeFragment(out.frag) == Some(RunsOf(td, ms)) <==> EmptyInGroup(td, ms) == 0)
  {
    hide DecodeFragment, RunsOf, EmptyInGroup, GroupItems, Selected, Flat, Members;
    RunsHoldSelected(td, Members(keys, refs, id));
    Spoiled.FragmentRoundTripIff(td, Members(keys, refs, id));
  }
}
