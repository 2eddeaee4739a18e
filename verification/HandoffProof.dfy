/** What every interleaving of producers, workers and Shutdown calls keeps. */
module HandoffProof {
  import opened Handoff

  ghost predicate NoDup(q: seq<nat>) {
    forall i, j :: 0 <= i < j < |q| ==> q[i] != q[j]
  }

  // ------------------------------------------------------ buffers and pipeline

  /** Each buffer is where its owner says, and nowhere else. */
  ghost predicate OwnersOk(sh: Shard) {
    && |sh.owner| == |sh.slots| == QUEUE_DEPTH
    && NoDup(sh.free) && NoDup(sh.work)
    && (forall b: nat :: b in sh.free <==> b < QUEUE_DEPTH && sh.owner[b] == InFree)
    && (forall b: nat :: b in sh.work <==> b < QUEUE_DEPTH && sh.owner[b] == InWork)
    && (forall b: nat :: sh.hand == Buffer(b) <==> b < QUEUE_DEPTH && sh.owner[b] == InHand)
  }

  function Queued(slots: seq<nat>, work: seq<nat>): (events: seq<nat>)
    requires forall b :: b in work ==> b < |slots|
    ensures |events| == |work|
  {
    seq(|work|, i requires 0 <= i < |work| => assert work[i] in work; slots[work[i]])
  }

  function InHandOf(sh: Shard): (events: seq<nat>)
    requires sh.hand.Buffer? ==> sh.hand.b < |sh.slots|
  {
    if sh.hand.Nothing? then [] else [sh.slots[sh.hand.b]]
  }

  /** What was sent is what was handled, then what is in hand, then what is queued. */
  ghost predicate PipelineOk(sh: Shard) {
    && (forall b :: b in sh.work ==> b < |sh.slots|)
    && (sh.hand.Buffer? ==> sh.hand.b < |sh.slots|)
    && sh.sends == sh.handled + InHandOf(sh) + Queued(sh.slots, sh.work)
  }

  lemma TakeFreeOk(sh: Shard, c: nat)
    requires OwnersOk(sh) && PipelineOk(sh) && sh.free != []
    ensures OwnersOk(TakeFree(sh, c)) && PipelineOk(TakeFree(sh, c))
    ensures sh.free[0] < QUEUE_DEPTH && sh.owner[sh.free[0]] == InFree
  {
    var b, rest := sh.free[0], sh.free[1..];
    assert b in sh.free;
    RestOf(sh.free);
  }

  lemma RestOf(q: seq<nat>)
    requires NoDup(q) && q != []
    ensures NoDup(q[1..])
    ensures forall b :: b in q[1..] <==> b in q && b != q[0]
  {
    forall b | b in q && b != q[0]
      ensures b in q[1..]
    {
      var i :| 0 <= i < |q| && q[i] == b;
      assert q[1..][i - 1] == b;
    }
  }

  lemma Joined(q: seq<nat>, b: nat)
    requires NoDup(q) && b !in q
    ensures NoDup(q + [b])
    ensures forall x :: x in q + [b] <==> x in q || x == b
  {
  }

  /** Writing a buffer only its own producer holds leaves the queued events as they were. */
  lemma WriteOk(sh: Shard, b: nat, c: nat)
    requires OwnersOk(sh) && PipelineOk(sh) && b < QUEUE_DEPTH && sh.owner[b].By?
    ensures OwnersOk(Write(sh, b, c)) && PipelineOk(Write(sh, b, c))
    ensures Write(sh, b, c).slots[b] == c
  {
    var sh' := Write(sh, b, c);
    assert Queued(sh'.slots, sh.work) == Queued(sh.slots, sh.work) by {
      forall i | 0 <= i < |sh.work|
        ensures sh.work[i] < QUEUE_DEPTH && sh.work[i] != b
      {
        assert sh.work[i] in sh.work;
      }
    }
  }

  lemma PushOk(sh: Shard, b: nat, c: nat)
    requires OwnersOk(sh) && PipelineOk(sh) && b < QUEUE_DEPTH && sh.owner[b].By? && sh.slots[b] == c
    ensures OwnersOk(Push(sh, b, c)) && PipelineOk(Push(sh, b, c))
  {
    Joined(sh.work, b);
    assert Queued(sh.slots, sh.work + [b]) == Queued(sh.slots, sh.work) + [c];
  }

  lemma PullOk(sh: Shard)
    requires OwnersOk(sh) && PipelineOk(sh) && sh.work != [] && sh.hand.Nothing?
    ensures OwnersOk(Pull(sh)) && PipelineOk(Pull(sh))
  {
    var b, rest := sh.work[0], sh.work[1..];
    assert b in sh.work;
    RestOf(sh.work);
    assert OwnersOk(Pull(sh)) by {
      hide PipelineOk;
    }
    assert PipelineOk(Pull(sh)) by {
      hide OwnersOk, NoDup;
      assert Queued(sh.slots, sh.work) == [sh.slots[b]] + Queued(sh.slots, rest);
    }
  }

  lemma PutBackOk(sh: Shard)
    requires OwnersOk(sh) && PipelineOk(sh) && sh.hand.Buffer?
    ensures sh.hand.b < |sh.slots|
    ensures OwnersOk(PutBack(sh)) && PipelineOk(PutBack(sh))
  {
    Joined(sh.free, sh.hand.b);
  }

  /** A ring that does not hold every buffer has room. */
  lemma HasRoom(q: seq<nat>, b: nat)
    requires NoDup(q) && (forall x :: x in q ==> x < QUEUE_DEPTH) && b < QUEUE_DEPTH && b !in q
    ensures |q| < QUEUE_DEPTH
  {
    SizeOf(q + [b], QUEUE_DEPTH);
  }

  lemma {:induction false} SizeOf(q: seq<nat>, bound: nat)
    requires NoDup(q) && forall x :: x in q ==> x < bound
    ensures |q| <= bound
  {
    if bound > 0 && q != [] {
      if bound - 1 in q {
        var i :| 0 <= i < |q| && q[i] == bound - 1;
        var rest := q[..i] + q[i + 1..];
        forall x | x in rest
          ensures x < bound - 1
        {
          assert x in q && x != q[i];
        }
        SizeOf(rest, bound - 1);
      } else {
        SizeOf(q, bound - 1);
      }
    }
    if bound == 0 && q != [] {
      assert q[0] in q;
    }
  }

  // --------------------------------------------------------- calls and buffers

  predicate Owns(pc: Pc, b: nat) {
    pc == Holding(b) || pc == Filled(b)
  }

  ghost predicate ShardsOk(s: State) {
    forall k :: 0 <= k < |s.shards| ==> OwnersOk(s.shards[k]) && PipelineOk(s.shards[k])
  }

  /** A call that holds a buffer owns it, and has written its own event there once it is filled. */
  ghost predicate CallOk(shards: seq<Shard>, c: nat, call: Call) {
    && call.shard < |shards|
    && (call.pc.Holding? || call.pc.Filled? ==>
          && call.pc.b < |shards[call.shard].owner|
          && shards[call.shard].owner[call.pc.b] == By(c))
    && (call.pc.Filled? ==> call.pc.b < |shards[call.shard].slots| && shards[call.shard].slots[call.pc.b] == c)
  }

  /** A buffer owned by a call is held by it. */
  ghost predicate BufferOk(calls: map<nat, Call>, k: nat, b: nat, owner: Owner) {
    owner.By? ==> owner.call in calls && calls[owner.call].shard == k && Owns(calls[owner.call].pc, b)
  }

  ghost predicate HoldersOk(s: State) {
    && (forall c :: c in s.calls ==> CallOk(s.shards, c, s.calls[c]))
    && (forall k, b :: 0 <= k < |s.shards| && 0 <= b < |s.shards[k].owner| ==> BufferOk(s.calls, k, b, s.shards[k].owner[b]))
  }

  /** Nothing that belongs to another call than `c` changes. */
  ghost predicate KeepsOthers(sh: Shard, sh': Shard, c: nat) {
    && |sh'.owner| == |sh.owner| && |sh'.slots| == |sh.slots|
    && (forall b :: 0 <= b < |sh.owner| && sh'.owner[b].By? && sh'.owner[b] != By(c) ==> sh'.owner[b] == sh.owner[b])
    && (forall b :: 0 <= b < |sh.owner| && sh.owner[b].By? && sh.owner[b] != By(c) ==>
          sh'.owner[b] == sh.owner[b] && (b < |sh.slots| ==> sh'.slots[b] == sh.slots[b]))
  }

  lemma OthersOk(s: State, k: nat, sh: Shard, c: nat, pc: Pc)
    requires HoldersOk(s) && k < |s.shards| && KeepsOthers(s.shards[k], sh, c)
    requires c in s.calls && s.calls[c].shard == k
    requires CallOk(s.shards[k := sh], c, s.calls[c].(pc := pc))
    requires forall b :: 0 <= b < |sh.owner| && sh.owner[b] == By(c) ==> Owns(pc, b)
    ensures HoldersOk(Go(SetShard(s, k, sh), c, pc))
  {
    var s' := Go(SetShard(s, k, sh), c, pc);
    forall x | x in s'.calls
      ensures CallOk(s'.shards, x, s'.calls[x])
    {
      if x != c {
        assert CallOk(s.shards, x, s.calls[x]);
      }
    }
    forall m, b | 0 <= m < |s'.shards| && 0 <= b < |s'.shards[m].owner|
      ensures BufferOk(s'.calls, m, b, s'.shards[m].owner[b])
    {
      assert BufferOk(s.calls, m, b, s.shards[m].owner[b]);
      if m == k && sh.owner[b] == By(c) {
        assert Owns(pc, b);
      }
    }
  }

  /** A step of a call that holds no buffer before or after. */
  lemma SameShard(s: State, c: nat, pc: Pc)
    requires HoldersOk(s) && At(s, c) && !s.calls[c].pc.Holding? && !s.calls[c].pc.Filled? && !pc.Holding? && !pc.Filled?
    ensures HoldersOk(Go(s, c, pc))
  {
    var k := s.calls[c].shard;
    forall b | 0 <= b < |s.shards[k].owner|
      ensures s.shards[k].owner[b] != By(c)
    {
      assert BufferOk(s.calls, k, b, s.shards[k].owner[b]);
    }
    OthersOk(s, k, s.shards[k], c, pc);
    assert s.shards[k := s.shards[k]] == s.shards;
  }

  lemma EnterHolders(s: State, c: nat, k: nat)
    requires HoldersOk(s)
    ensures HoldersOk(Produce(s, Enter(c, k)))
  {
    if c !in s.calls && k < |s.shards| {
      forall m, b | 0 <= m < |s.shards| && 0 <= b < |s.shards[m].owner|
        ensures BufferOk(s.calls[c := Call(k, Entered)], m, b, s.shards[m].owner[b])
      {
        assert BufferOk(s.calls, m, b, s.shards[m].owner[b]);
      }
    }
  }

  /** The only buffers a call owns are those its program counter says. */
  lemma OwnedBy(s: State, c: nat)
    requires HoldersOk(s) && At(s, c)
    ensures forall b :: 0 <= b < |ShardOf(s, c).owner| && ShardOf(s, c).owner[b] == By(c) ==> Owns(s.calls[c].pc, b)
  {
    var k := s.calls[c].shard;
    forall b | 0 <= b < |s.shards[k].owner| && s.shards[k].owner[b] == By(c)
      ensures Owns(s.calls[c].pc, b)
    {
      assert BufferOk(s.calls, k, b, s.shards[k].owner[b]);
    }
  }

  lemma ShardsUpdated(s: State, k: nat, sh: Shard)
    requires ShardsOk(s) && k < |s.shards| && OwnersOk(sh) && PipelineOk(sh)
    ensures ShardsOk(SetShard(s, k, sh))
  {
    hide OwnersOk, PipelineOk;
  }

  lemma TakeHolders(s: State, c: nat)
    requires ShardsOk(s) && HoldersOk(s)
    ensures ShardsOk(Produce(s, TakeBuffer(c))) && HoldersOk(Produce(s, TakeBuffer(c)))
  {
    if At(s, c) && s.calls[c].pc.Passed? && ShardOf(s, c).free != [] {
      hide HoldersOk, PipelineOk;
      var k := s.calls[c].shard;
      var sh, b := s.shards[k], s.shards[k].free[0];
      OwnedBy(s, c);
      TakeFreeOk(sh, c);
      ShardsUpdated(s, k, TakeFree(sh, c));
      OthersOk(s, k, TakeFree(sh, c), c, Holding(b));
    }
  }

  lemma FillHolders(s: State, c: nat)
    requires ShardsOk(s) && HoldersOk(s)
    ensures ShardsOk(Produce(s, Fill(c))) && HoldersOk(Produce(s, Fill(c)))
  {
    if At(s, c) && s.calls[c].pc.Holding? {
      var k, b := s.calls[c].shard, s.calls[c].pc.b;
      assert CallOk(s.shards, c, s.calls[c]);
      hide HoldersOk, PipelineOk;
      var sh := s.shards[k];
      OwnedBy(s, c);
      WriteOk(sh, b, c);
      ShardsUpdated(s, k, Write(sh, b, c));
      OthersOk(s, k, Write(sh, b, c), c, Filled(b));
    }
  }

  lemma SendHolders(s: State, c: nat)
    requires ShardsOk(s) && HoldersOk(s)
    ensures ShardsOk(Produce(s, Send(c))) && HoldersOk(Produce(s, Send(c)))
  {
    if At(s, c) && s.calls[c].pc.Filled? && |ShardOf(s, c).work| < QUEUE_DEPTH {
      var k, b := s.calls[c].shard, s.calls[c].pc.b;
      assert CallOk(s.shards, c, s.calls[c]);
      hide HoldersOk, PipelineOk;
      var sh := s.shards[k];
      OwnedBy(s, c);
      PushOk(sh, b, c);
      ShardsUpdated(s, k, Push(sh, b, c));
      OthersOk(s, k, Push(sh, b, c), c, Sent);
    }
  }

  lemma ProduceHolders(s: State, e: Event)
    requires ShardsOk(s) && HoldersOk(s)
    ensures ShardsOk(Produce(s, e)) && HoldersOk(Produce(s, e))
  {
    hide OwnersOk, PipelineOk, HoldersOk;
    match e
    case Enter(c, k) => EnterHolders(s, c, k);
    case Check(c) => if At(s, c) && s.calls[c].pc.Entered? { SameShard(s, c, if s.intake then Passed else Refused); }
    case Shed(c) => if At(s, c) && s.calls[c].pc.Passed? { SameShard(s, c, Refused); }
    case TakeBuffer(c) => TakeHolders(s, c);
    case Fill(c) => FillHolders(s, c);
    case Send(c) => SendHolders(s, c);
    case Return(c) =>
      if At(s, c) && (s.calls[c].pc.Sent? || s.calls[c].pc.Refused?) {
        SameShard(s, c, Returned(s.calls[c].pc.Sent?));
        SameHolders(Go(s, c, Returned(s.calls[c].pc.Sent?)), Produce(s, e));
      }
    case _ =>
  }

  lemma SameHolders(s: State, s': State)
    requires HoldersOk(s) && s'.calls == s.calls && s'.shards == s.shards
    ensures HoldersOk(s')
  {
  }

  /** A worker's step touches no buffer that a call holds. */
  lemma WorkHolders(s: State, k: nat, sh: Shard)
    requires HoldersOk(s) && k < |s.shards|
    requires |sh.owner| == |s.shards[k].owner| && sh.slots == s.shards[k].slots
    requires forall b :: 0 <= b < |sh.owner| && (sh.owner[b].By? || s.shards[k].owner[b].By?) ==> sh.owner[b] == s.shards[k].owner[b]
    ensures HoldersOk(SetShard(s, k, sh))
  {
    var s' := SetShard(s, k, sh);
    forall x | x in s'.calls
      ensures CallOk(s'.shards, x, s'.calls[x])
    {
      assert CallOk(s.shards, x, s.calls[x]);
    }
    forall m, b | 0 <= m < |s'.shards| && 0 <= b < |s'.shards[m].owner|
      ensures BufferOk(s'.calls, m, b, s'.shards[m].owner[b])
    {
      assert BufferOk(s.calls, m, b, s.shards[m].owner[b]);
    }
  }

  lemma WorkStepHolders(s: State, e: Event)
    requires ShardsOk(s) && HoldersOk(s)
    ensures ShardsOk(Work(s, e)) && HoldersOk(Work(s, e))
  {
    hide HoldersOk;
    if Work(s, e) != s {
      var k := e.k;
      var sh := s.shards[k];
      assert OwnersOk(sh) && PipelineOk(sh);
      match e {
        case Grab(_) =>
          PullOwner(sh);
          PullOk(sh);
        case Recycle(_) =>
          PutBackOwner(sh);
          PutBackOk(sh);
        case SeeStop(_) =>
          SignalOk(sh, Draining);
        case Finish(_) =>
          SignalOk(sh, Done);
        case _ =>
      }
      hide OwnersOk, PipelineOk;
      WorkHolders(s, k, Work(s, e).shards[k]);
      ShardsUpdated(s, k, Work(s, e).shards[k]);
    }
  }

  lemma PullOwner(sh: Shard)
    requires OwnersOk(sh) && sh.work != []
    ensures |Pull(sh).owner| == |sh.owner|
    ensures forall b :: 0 <= b < |sh.owner| && (Pull(sh).owner[b].By? || sh.owner[b].By?) ==> Pull(sh).owner[b] == sh.owner[b]
  {
    assert sh.work[0] in sh.work;
  }

  lemma PutBackOwner(sh: Shard)
    requires OwnersOk(sh) && sh.hand.Buffer?
    ensures sh.hand.b < |sh.slots| && |PutBack(sh).owner| == |sh.owner|
    ensures forall b :: 0 <= b < |sh.owner| && (PutBack(sh).owner[b].By? || sh.owner[b].By?) ==> PutBack(sh).owner[b] == sh.owner[b]
  {
  }

  /** Signals and phases concern no buffer. */
  lemma SignalOk(sh: Shard, phase: Phase)
    requires OwnersOk(sh) && PipelineOk(sh)
    ensures OwnersOk(sh.(phase := phase)) && PipelineOk(sh.(phase := phase))
    ensures OwnersOk(sh.(stop := true)) && PipelineOk(sh.(stop := true))
  {
  }

  lemma NewShardOk()
    ensures OwnersOk(NewShard()) && PipelineOk(NewShard())
  {
    var sh := NewShard();
    forall b: nat
      ensures b in sh.free <==> b < QUEUE_DEPTH && sh.owner[b] == InFree
    {
      if b < QUEUE_DEPTH {
        assert sh.free[b] == b;
      }
    }
  }
}
