/**
 Publishing a batch durably: chunks through the asynchronous window, one join
 of acknowledgements per chunk, under a context that may die at any moment.
 */
module DurablePublish {
  import opened Types

  const ASYNC_MAX_PENDING: nat := 64

  datatype Keep = Keep(id: TraceId, reason: byte)

  /** What a keep's future says once the chunk has been joined. */
  datatype Ack = Acked | Nacked | Unresolved

  datatype Err = NoErr | PublishErr(i: nat) | AckErr(i: nat) | CtxErr

  /**
   When the context is read: before send `i`, at the join of the chunk position
   `i` lies in, at the future of position `i`, and after that chunk.
   */
  datatype Instant = Send(i: nat) | Join(i: nat) | Read(i: nat) | After(i: nat)

  function Chunk(t: Instant): (c: nat) { t.i / ASYNC_MAX_PENDING }

  function Phase(t: Instant): (k: nat) {
    match t
    case Send(_) => 0
    case Join(_) => 1
    case Read(_) => 2
    case After(_) => 3
  }

  /** Program order: chunk by chunk, sends before the join before the futures. */
  predicate NoLater(a: Instant, b: Instant) {
    || Chunk(a) < Chunk(b)
    || (Chunk(a) == Chunk(b) && Phase(a) < Phase(b))
    || (Chunk(a) == Chunk(b) && Phase(a) == Phase(b) && (a.Join? || a.After? || a.i <= b.i))
  }

  /** What the bus and the context do to this batch, by position and instant. */
  datatype World = World(dead: Instant -> bool, refused: nat -> bool, ack: nat -> Ack)

  /** A dead context stays dead. */
  ghost predicate Lawful(w: World) {
    forall a, b :: NoLater(a, b) && w.dead(a) ==> w.dead(b)
  }

  /** The end of the last chunk of a batch of `n`. */
  function Finally(n: nat): (t: Instant) {
    After(if n == 0 then 0 else n - 1)
  }

  /** Taken by the client, yet unresolved under a live context when its future was read. */
  predicate Silent(w: World, i: nat) {
    !w.dead(Send(i)) && !w.refused(i) && w.ack(i).Unresolved? && !w.dead(Read(i))
  }

  ghost predicate AllSilent(w: World, at: seq<nat>) {
    forall k :: 0 <= k < |at| ==> Silent(w, at[k])
  }

  /** The window reports completion only when every future is resolved; a future left unresolved means the context died at the join. */
  ghost predicate CompletionResolves(w: World, n: nat) {
    forall i: nat :: i < n && w.ack(i).Unresolved? ==> w.dead(Join(i))
  }

  /** The keep was sent before the context died, taken by the client and acknowledged. */
  predicate Delivered(w: World, i: nat) {
    !w.dead(Send(i)) && !w.refused(i) && w.ack(i).Acked?
  }

  ghost function Undelivered(w: World, n: nat): (s: set<nat>) {
    set i: nat | i < n && !Delivered(w, i)
  }

  ghost function RefusedIn(w: World, a: nat, b: nat): (s: set<nat>) {
    set i: nat | i < b && a <= i && w.refused(i)
  }

  /** `failed` is the keeps at the positions `at`, and `at` lists exactly `s`, each once. */
  ghost predicate Lists(keeps: seq<Keep>, failed: seq<Keep>, at: seq<nat>, s: set<nat>) {
    && multiset(at) == multiset(s)
    && |failed| == |at|
    && (forall k :: 0 <= k < |at| ==> at[k] < |keeps| && failed[k] == keeps[at[k]])
  }

  lemma ListsMore(keeps: seq<Keep>, failed: seq<Keep>, at: seq<nat>, s: set<nat>, i: nat)
    requires Lists(keeps, failed, at, s) && i !in s && i < |keeps|
    ensures Lists(keeps, failed + [keeps[i]], at + [i], s + {i})
  {
  }

  lemma SilentMore(w: World, at: seq<nat>, i: nat)
    ensures AllSilent(w, at + [i]) <==> AllSilent(w, at) && Silent(w, i)
  {
    assert (at + [i])[|at|] == i;
    if AllSilent(w, at + [i]) {
      assert forall k :: 0 <= k < |at| ==> at[k] == (at + [i])[k];
    }
  }

  /** The bus itself said no to the keep at `i`: refused when sent, or by its acknowledgement. */
  predicate SaidNo(w: World, i: nat) {
    !w.dead(Send(i)) && (w.refused(i) || w.ack(i).Nacked?)
  }

  /** The last no the bus said to a keep of this list. */
  function LastNo(w: World, at: seq<nat>): (err: Err) {
    if at == [] then NoErr
    else
      var i := at[|at| - 1];
      if !SaidNo(w, i) then LastNo(w, at[..|at| - 1]) else if w.refused(i) then PublishErr(i) else AckErr(i)
  }

  /** The bus's own no outranks the deadline: the error is the last no, and the context's only where there is none. */
  ghost predicate NoOutranks(w: World, at: seq<nat>, err: Err) {
    if LastNo(w, at).NoErr? then err.NoErr? || err.CtxErr? else err == LastNo(w, at)
  }

  lemma LastNoNext(w: World, at: seq<nat>, i: nat)
    ensures LastNo(w, at + [i]) == if !SaidNo(w, i) then LastNo(w, at) else if w.refused(i) then PublishErr(i) else AckErr(i)
  {
    assert (at + [i])[..|at|] == at;
  }

  /** Keeps that were never sent add no new no. */
  lemma {:induction false} LastNoTail(w: World, at: seq<nat>, a: nat, b: nat)
    requires a <= b && forall i: nat :: a <= i < b ==> w.dead(Send(i))
    ensures LastNo(w, at + Range(a, b)) == LastNo(w, at)
    decreases b - a
  {
    hide LastNo;
    if a == b {
      assert at + Range(a, b) == at;
    } else {
      LastNoNext(w, at, a);
      LastNoTail(w, at + [a], a + 1, b);
      FirstOfRange(at, a, b);
    }
  }

  lemma FirstOfRange(at: seq<nat>, a: nat, b: nat)
    requires a < b
    ensures at + [a] + Range(a + 1, b) == at + Range(a, b)
  {
  }

  function Range(a: nat, b: nat): (r: seq<nat>)
    requires a <= b
    ensures |r| == b - a && forall k :: 0 <= k < |r| ==> r[k] == a + k
    decreases b - a
  {
    if a == b then [] else [a] + Range(a + 1, b)
  }

  /** The tail of the batch, all at once. */
  lemma {:induction false} ListsTail(keeps: seq<Keep>, failed: seq<Keep>, at: seq<nat>, s: set<nat>, a: nat, all: set<nat>)
    requires Lists(keeps, failed, at, s) && a <= |keeps|
    requires forall i :: i in s ==> i < a
    requires forall i :: i in all <==> i in s || a <= i < |keeps|
    ensures Lists(keeps, failed + keeps[a..], at + Range(a, |keeps|), all)
    decreases |keeps| - a
  {
    hide Lists;
    if a == |keeps| {
      assert all == s;
      assert failed + keeps[a..] == failed && at + Range(a, |keeps|) == at;
    } else {
      ListsMore(keeps, failed, at, s, a);
      ListsTail(keeps, failed + [keeps[a]], at + [a], s + {a}, a + 1, all);
      assert failed + [keeps[a]] + keeps[a + 1..] == failed + keeps[a..];
      assert at + [a] + Range(a + 1, |keeps|) == at + Range(a, |keeps|);
    }
  }

  /** Send one chunk; stops early if the context dies. */
  method SendChunk(w: World, keeps: seq<Keep>, start: nat, end: nat, failed0: seq<Keep>, err0: Err, ghost at0: seq<nat>)
    returns (sent: nat, failed: seq<Keep>, err: Err, ghost at: seq<nat>)
    requires start < end <= |keeps| && Lists(keeps, failed0, at0, Undelivered(w, start))
    requires (err0.NoErr? <==> AllSilent(w, at0)) && NoOutranks(w, at0, err0)
    ensures start <= sent <= end && (sent < end ==> w.dead(Send(sent)))
    ensures forall i :: start <= i < sent ==> !w.dead(Send(i))
    ensures Lists(keeps, failed, at, Undelivered(w, start) + RefusedIn(w, start, sent))
    ensures (err.NoErr? <==> AllSilent(w, at)) && NoOutranks(w, at, err)
  {
    hide Lists, AllSilent, LastNo;
    sent, failed, err, at := start, failed0, err0, at0;
    assert Undelivered(w, start) + RefusedIn(w, start, start) == Undelivered(w, start);
    while sent < end && !w.dead(Send(sent))
      invariant start <= sent <= end
      invariant forall i :: start <= i < sent ==> !w.dead(Send(i))
      invariant Lists(keeps, failed, at, Undelivered(w, start) + RefusedIn(w, start, sent))
      invariant (err.NoErr? <==> AllSilent(w, at)) && NoOutranks(w, at, err)
    {
      if w.refused(sent) {
        ListsMore(keeps, failed, at, Undelivered(w, start) + RefusedIn(w, start, sent), sent);
        SilentMore(w, at, sent);
        LastNoNext(w, at, sent);
        assert Undelivered(w, start) + RefusedIn(w, start, sent + 1) == Undelivered(w, start) + RefusedIn(w, start, sent) + {sent};
        failed, at, err := failed + [keeps[sent]], at + [sent], PublishErr(sent);
      } else {
        assert RefusedIn(w, start, sent + 1) == RefusedIn(w, start, sent);
      }
      sent := sent + 1;
    }
  }

  /** Read the chunk's futures; those refused at the send were reported there. */
  method JoinChunk(w: World, keeps: seq<Keep>, start: nat, sent: nat, end: nat, failed0: seq<Keep>, err0: Err, ghost at0: seq<nat>)
    returns (failed: seq<Keep>, err: Err, ghost at: seq<nat>)
    requires start < end <= |keeps| && start <= sent <= end
    requires forall i :: start <= i < sent ==> !w.dead(Send(i))
    requires Lists(keeps, failed0, at0, Undelivered(w, start) + RefusedIn(w, start, sent))
    requires (err0.NoErr? <==> AllSilent(w, at0)) && NoOutranks(w, at0, err0)
    ensures Lists(keeps, failed, at, Undelivered(w, sent))
    ensures (err.NoErr? <==> AllSilent(w, at)) && NoOutranks(w, at, err)
  {
    hide Lists, AllSilent, LastNo;
    failed, err, at := failed0, err0, at0;
    var i := start;
    while i < sent
      invariant start <= i <= sent
      invariant Lists(keeps, failed, at, Undelivered(w, i) + RefusedIn(w, i, sent))
      invariant (err.NoErr? <==> AllSilent(w, at)) && NoOutranks(w, at, err)
    {
      if w.refused(i) || w.ack(i).Acked? {
        assert Undelivered(w, i + 1) + RefusedIn(w, i + 1, sent) == Undelivered(w, i) + RefusedIn(w, i, sent);
      } else {
        ListsMore(keeps, failed, at, Undelivered(w, i) + RefusedIn(w, i, sent), i);
        SilentMore(w, at, i);
        LastNoNext(w, at, i);
        assert Undelivered(w, i + 1) + RefusedIn(w, i + 1, sent) == Undelivered(w, i) + RefusedIn(w, i, sent) + {i};
        failed, at := failed + [keeps[i]], at + [i];
        if w.ack(i).Nacked? {
          err := AckErr(i);
        } else if err.NoErr? && w.dead(Read(i)) {
          err := CtxErr;
        }
      }
      i := i + 1;
    }
    assert Undelivered(w, sent) + RefusedIn(w, sent, sent) == Undelivered(w, sent);
  }

  /** One chunk; if the context has died by its end, every keep not yet resolved fails. */
  method PublishChunk(w: World, keeps: seq<Keep>, start: nat, end: nat, failed0: seq<Keep>, err0: Err, ghost at0: seq<nat>)
    returns (dead: bool, failed: seq<Keep>, err: Err, ghost at: seq<nat>)
    requires Lawful(w) && start < end <= |keeps| && (end % ASYNC_MAX_PENDING == 0 || end == |keeps|)
    requires Lists(keeps, failed0, at0, Undelivered(w, start))
    requires (err0.NoErr? <==> AllSilent(w, at0)) && NoOutranks(w, at0, err0)
    ensures NoOutranks(w, at, err)
    ensures dead == w.dead(After(end - 1))
    ensures Lists(keeps, failed, at, Undelivered(w, if dead then |keeps| else end))
    ensures !dead ==> (err.NoErr? <==> AllSilent(w, at))
    ensures dead ==> (err.NoErr? <==> failed == [])
  {
    hide Lists, AllSilent, RefusedIn, Lawful, NoLater, LastNo;
    var sent;
    sent, failed, err, at := SendChunk(w, keeps, start, end, failed0, err0, at0);
    failed, err, at := JoinChunk(w, keeps, start, sent, end, failed, err, at);
    dead := w.dead(After(end - 1));
    if dead {
      DeadTail(w, sent, end, |keeps|);
      ListsTail(keeps, failed, at, Undelivered(w, sent), sent, Undelivered(w, |keeps|));
      LastNoTail(w, at, sent, |keeps|);
      if failed == [] {
        NoneSilent(w, keeps, failed, at, Undelivered(w, sent));
      }
      failed, at := failed + keeps[sent..], at + Range(sent, |keeps|);
      if failed != [] && err.NoErr? {
        err := CtxErr;
      }
    } else {
      LiveChunk(w, sent, end);
    }
  }

  lemma NoneSilent(w: World, keeps: seq<Keep>, failed: seq<Keep>, at: seq<nat>, s: set<nat>)
    requires Lists(keeps, failed, at, s) && failed == []
    ensures AllSilent(w, at)
  {
  }

  /** A context alive after the join was alive at every send. */
  lemma LiveChunk(w: World, sent: nat, end: nat)
    requires Lawful(w) && sent <= end && 0 < end && !w.dead(After(end - 1)) && (sent < end ==> w.dead(Send(sent)))
    ensures sent == end
  {
    assert sent < end ==> NoLater(Send(sent), After(end - 1));
  }

  /**
   Every position of the batch is classified exactly once: delivered, or listed
   as failed. The error is nil exactly when nothing failed, or when all that
   failed fell silent under a context that outlived the call; else it is the last
   refusal of the bus, and the context's own error only if the bus refused nothing.
   */
  method Publish(w: World, keeps: seq<Keep>) returns (failed: seq<Keep>, err: Err, ghost at: seq<nat>)
    requires Lawful(w)
    ensures Lists(keeps, failed, at, Undelivered(w, |keeps|))
    ensures err.NoErr? <==> failed == [] || (AllSilent(w, at) && !w.dead(Finally(|keeps|)))
    ensures failed == [] <==> forall i: nat :: i < |keeps| ==> Delivered(w, i)
    ensures NoOutranks(w, at, err)
  {
    hide Lists, AllSilent, Undelivered, Delivered, Lawful, NoOutranks;
    failed, err, at := [], NoErr, [];
    NothingListed(w, keeps);
    assert NoOutranks(w, at, err) by { NoNoYet(w); }
    var start := 0;
    while start < |keeps|
      invariant start % ASYNC_MAX_PENDING == 0
      invariant Lists(keeps, failed, at, Undelivered(w, if start < |keeps| then start else |keeps|))
      invariant start > 0 ==> !w.dead(Finally(if start < |keeps| then start else |keeps|))
      invariant (err.NoErr? <==> AllSilent(w, at)) && NoOutranks(w, at, err)
    {
      var end := if start + ASYNC_MAX_PENDING < |keeps| then start + ASYNC_MAX_PENDING else |keeps|;
      var dead;
      dead, failed, err, at := PublishChunk(w, keeps, start, end, failed, err, at);
      if dead {
        StaysDead(w, end, |keeps|);
        ListsAll(w, keeps, failed, at);
        return;
      }
      start := start + ASYNC_MAX_PENDING;
    }
    if failed == [] {
      NoneSilent(w, keeps, failed, at, Undelivered(w, |keeps|));
    } else {
      SomeKeep(keeps, failed, at, Undelivered(w, |keeps|));
    }
    ListsAll(w, keeps, failed, at);
  }

  lemma NothingListed(w: World, keeps: seq<Keep>)
    ensures Lists(keeps, [], [], Undelivered(w, 0)) && AllSilent(w, [])
  {
    assert Undelivered(w, 0) == {};
  }

  lemma NoNoYet(w: World)
    ensures NoOutranks(w, [], NoErr)
  {
  }

  lemma StaysDead(w: World, end: nat, n: nat)
    requires Lawful(w) && 0 < end <= n && w.dead(After(end - 1))
    ensures w.dead(Finally(n))
  {
    assert NoLater(After(end - 1), After(n - 1));
  }

  lemma SomeKeep(keeps: seq<Keep>, failed: seq<Keep>, at: seq<nat>, s: set<nat>)
    requires Lists(keeps, failed, at, s) && failed != []
    ensures keeps != []
  {
    assert at[0] < |keeps|;
  }

  /** Once the context is dead, nothing further is delivered. */
  lemma DeadTail(w: World, sent: nat, end: nat, n: nat)
    requires Lawful(w) && 0 < end <= n && (end % ASYNC_MAX_PENDING == 0 || end == n)
    requires sent <= end && w.dead(After(end - 1)) && (sent < end ==> w.dead(Send(sent)))
    ensures forall i :: i in Undelivered(w, n) <==> i in Undelivered(w, sent) || sent <= i < n
    ensures forall i: nat :: sent <= i < n ==> w.dead(Send(i))
  {
    forall i: nat | sent <= i < n
      ensures w.dead(Send(i))
    {
      if sent == end {
        assert NoLater(After(end - 1), Send(i));
      } else {
        assert NoLater(Send(sent), Send(i));
      }
    }
  }

  lemma ListsAll(w: World, keeps: seq<Keep>, failed: seq<Keep>, at: seq<nat>)
    requires Lists(keeps, failed, at, Undelivered(w, |keeps|))
    ensures failed == [] <==> forall i: nat :: i < |keeps| ==> Delivered(w, i)
  {
    var s := Undelivered(w, |keeps|);
    assert |multiset(at)| == |at| && |multiset(s)| == |s|;
    if failed == [] {
      forall i: nat | i < |keeps|
        ensures Delivered(w, i)
      {
        assert i in s ==> i in multiset(s);
      }
    } else {
      assert at[0] in multiset(at);
      assert at[0] in s;
    }
  }

  /** Since completion implies resolved futures, the error is nil exactly when the failed set is empty. */
  lemma NilIffNoneFailed(w: World, keeps: seq<Keep>, failed: seq<Keep>, at: seq<nat>, err: Err)
    requires Lawful(w) && CompletionResolves(w, |keeps|) && Lists(keeps, failed, at, Undelivered(w, |keeps|))
    requires err.NoErr? <==> failed == [] || (AllSilent(w, at) && !w.dead(Finally(|keeps|)))
    ensures err.NoErr? <==> failed == []
  {
    if failed != [] {
      assert NoLater(Join(at[0]), Read(at[0]));
      assert !Silent(w, at[0]);
    }
  }

  /** Without that promise one silent future breaks the contract: a failed keep beside a nil error. */
  lemma SilentFutureBreaksContract(w: World, keeps: seq<Keep>, failed: seq<Keep>, at: seq<nat>, err: Err)
    requires |keeps| == 1 && Silent(w, 0) && !w.dead(Finally(1))
    requires Lists(keeps, failed, at, Undelivered(w, |keeps|))
    requires err.NoErr? <==> failed == [] || (AllSilent(w, at) && !w.dead(Finally(|keeps|)))
    ensures failed == keeps && err.NoErr?
  {
    assert Undelivered(w, 1) == {0};
    assert |multiset(at)| == |at| && |multiset({0})| == 1;
    assert at[0] in multiset(at);
  }
}
