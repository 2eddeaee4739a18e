/**
 The arena behind the trace index: nodes threaded into one chain per trace and
 one free list. `owner` says for every node which of those it is on, so the
 arena is the disjoint union of the chains and the free list.
 */
module IndexArena {
  import opened Types

  /** Where a fragment record lies: its segment generation, byte offset and fragment length. */
  datatype Spot = Spot(gen: nat, off: nat, length: nat)

  /** One arena node; `next` is an arena index, or -1 at the end of a chain. */
  datatype Node = Node(spot: Spot, next: int)

  datatype Owner = OnFree(pos: nat) | InChain(id: TraceId, pos: nat) | Loose

  type Chains = map<TraceId, seq<nat>>

  ghost predicate OwnerOk(i: nat, o: Owner, stack: seq<nat>, chains: Chains, loose: int) {
    match o
    case OnFree(p) => p < |stack| && stack[p] == i
    case InChain(id, p) => id in chains && p < |chains[id]| && chains[id][p] == i
    case Loose => i == loose
  }

  /** The free list, last in first out: `free` is the top, each node points one down. */
  ghost predicate StackOk(arena: seq<Node>, free: int, stack: seq<nat>, owner: seq<Owner>)
    requires |owner| == |arena|
  {
    && free == (if |stack| == 0 then -1 else stack[|stack| - 1])
    && (forall p :: 0 <= p < |stack| ==> stack[p] < |arena| && owner[stack[p]] == OnFree(p))
    && (forall p {:trigger arena[stack[p]]} :: 0 <= p < |stack| ==>
          arena[stack[p]].next == if p == 0 then -1 else stack[p - 1])
  }

  ghost predicate ChainOk(arena: seq<Node>, id: TraceId, chain: seq<nat>, owner: seq<Owner>)
    requires |owner| == |arena|
  {
    && chain != []
    && (forall p :: 0 <= p < |chain| ==> chain[p] < |arena| && owner[chain[p]] == InChain(id, p))
    && (forall p {:trigger arena[chain[p]]} :: 0 <= p < |chain| ==>
          arena[chain[p]].next == if p + 1 < |chain| then chain[p + 1] else -1)
  }

  /** `loose` is the one allocated node not yet attached, or -1. */
  ghost predicate ArenaOk(arena: seq<Node>, free: int, stack: seq<nat>, chains: Chains, owner: seq<Owner>, loose: int) {
    && |owner| == |arena|
    && (forall i :: 0 <= i < |arena| ==> OwnerOk(i, owner[i], stack, chains, loose))
    && (0 <= loose ==> loose < |arena| && owner[loose] == Loose)
    && StackOk(arena, free, stack, owner)
    && (forall id :: id in chains ==> ChainOk(arena, id, chains[id], owner))
  }

  /** The locations a chain carries, oldest first. */
  ghost function Spots(arena: seq<Node>, chain: seq<nat>): (spots: seq<Spot>)
    ensures |spots| == |chain|
  {
    seq(|chain|, p requires 0 <= p < |chain| => if chain[p] < |arena| then arena[chain[p]].spot else Spot(0, 0, 0))
  }

  lemma SpotsNext(arena: seq<Node>, chain: seq<nat>, m: nat)
    requires m < |chain| && chain[m] < |arena|
    ensures Spots(arena, chain[..m + 1]) == Spots(arena, chain[..m]) + [arena[chain[m]].spot]
    ensures m == 0 ==> Spots(arena, chain[..m + 1]) == [arena[chain[m]].spot]
  {
  }

  /** The plain map the index stands for. */
  ghost function Locations(arena: seq<Node>, chains: Chains): (m: map<TraceId, seq<Spot>>)
    ensures m.Keys == chains.Keys
  {
    map id | id in chains :: Spots(arena, chains[id])
  }

  /** Every node is on exactly one list, and the free list holds the rest: nodes in chains plus free nodes. */
  lemma ArenaIsDisjointUnion(arena: seq<Node>, free: int, stack: seq<nat>, chains: Chains, owner: seq<Owner>, i: nat)
    requires ArenaOk(arena, free, stack, chains, owner, -1)
    requires i < |arena|
    ensures i in stack <==> forall id :: id in chains ==> i !in chains[id]
    ensures forall a, b :: a in chains && b in chains && i in chains[a] && i in chains[b] ==> a == b
    ensures forall p, q :: 0 <= p < q < |stack| ==> stack[p] != stack[q]
  {
    assert OwnerOk(i, owner[i], stack, chains, -1);
    forall a | a in chains && i in chains[a]
      ensures owner[i].InChain? && owner[i].id == a
    {
      assert ChainOk(arena, a, chains[a], owner);
    }
    if owner[i].InChain? {
      assert i in chains[owner[i].id];
    }
  }

  /** A chain stays as it is when nodes it does not own change. */
  lemma ChainFrame(arena: seq<Node>, arena': seq<Node>, owner: seq<Owner>, owner': seq<Owner>, id: TraceId, chain: seq<nat>)
    requires |owner| == |arena| <= |arena'| == |owner'|
    requires ChainOk(arena, id, chain, owner)
    requires forall i :: 0 <= i < |arena| && owner[i].InChain? && owner[i].id == id ==> arena'[i] == arena[i] && owner'[i] == owner[i]
    ensures ChainOk(arena', id, chain, owner')
    ensures Spots(arena', chain) == Spots(arena, chain)
  {
    assert forall p :: 0 <= p < |chain| ==> owner[chain[p]] == InChain(id, p);
  }

  /** The free list without its top. */
  lemma PoppedStackOk(arena: seq<Node>, free: int, stack: seq<nat>, owner: seq<Owner>, node: Node)
    requires |owner| == |arena|
    requires StackOk(arena, free, stack, owner)
    requires free >= 0
    ensures |stack| > 0 && free < |arena| && owner[free] == OnFree(|stack| - 1)
    ensures StackOk(arena[free := node], arena[free].next, stack[..|stack| - 1], owner[free := Loose])
  {
    var arena', stack', owner' := arena[free := node], stack[..|stack| - 1], owner[free := Loose];
    assert owner[stack[|stack| - 1]] == OnFree(|stack| - 1);
    assert arena[stack[|stack| - 1]].next == if |stack| == 1 then -1 else stack'[|stack'| - 1];
    forall p | 0 <= p < |stack'|
      ensures stack'[p] < |arena'| && owner'[stack'[p]] == OnFree(p)
      ensures arena'[stack'[p]].next == if p == 0 then -1 else stack'[p - 1]
    {
      assert owner[stack[p]] == OnFree(p) && arena[stack[p]].next < |arena|;
    }
  }

  /** The free list is empty exactly if its head says so. */
  lemma FreeIffStacked(arena: seq<Node>, free: int, stack: seq<nat>, chains: Chains, owner: seq<Owner>)
    requires ArenaOk(arena, free, stack, chains, owner, -1)
    ensures free >= 0 <==> |stack| > 0
  {
  }

  /** Popping the free list. */
  lemma PopStep(arena: seq<Node>, free: int, stack: seq<nat>, chains: Chains, owner: seq<Owner>, spot: Spot)
    requires ArenaOk(arena, free, stack, chains, owner, -1)
    requires free >= 0
    ensures |stack| > 0 && free < |arena|
    ensures ArenaOk(arena[free := Node(spot, -1)], arena[free].next, stack[..|stack| - 1], chains,
                    owner[free := Loose], free)
    ensures Locations(arena[free := Node(spot, -1)], chains) == Locations(arena, chains)
  {
    var arena', stack', owner' := arena[free := Node(spot, -1)], stack[..|stack| - 1], owner[free := Loose];
    hide StackOk, ChainOk, Spots;
    PoppedStackOk(arena, free, stack, owner, Node(spot, -1));
    forall i | 0 <= i < |arena'|
      ensures OwnerOk(i, owner'[i], stack', chains, free)
    {
      assert OwnerOk(i, owner[i], stack, chains, -1);
    }
    forall id | id in chains
      ensures ChainOk(arena', id, chains[id], owner') && Spots(arena', chains[id]) == Spots(arena, chains[id])
    {
      assert ChainOk(arena, id, chains[id], owner);
      ChainFrame(arena, arena', owner, owner', id, chains[id]);
    }
  }

  /** Growing the arena by one node. */
  lemma GrowStep(arena: seq<Node>, stack: seq<nat>, chains: Chains, owner: seq<Owner>, spot: Spot)
    requires ArenaOk(arena, -1, stack, chains, owner, -1)
    ensures |stack| == 0
    ensures ArenaOk(arena + [Node(spot, -1)], -1, stack, chains, owner + [Loose], |arena|)
    ensures Locations(arena + [Node(spot, -1)], chains) == Locations(arena, chains)
  {
    var arena', owner' := arena + [Node(spot, -1)], owner + [Loose];
    forall i | 0 <= i < |arena'|
      ensures OwnerOk(i, owner'[i], stack, chains, |arena|)
    {
      if i < |arena| {
        assert OwnerOk(i, owner[i], stack, chains, -1);
      }
    }
    forall id | id in chains
      ensures ChainOk(arena', id, chains[id], owner') && Spots(arena', chains[id]) == Spots(arena, chains[id])
    {
      assert ChainOk(arena, id, chains[id], owner);
    }
  }

  /** A loose node becomes the chain of a trace that had none. */
  lemma StartChain(arena: seq<Node>, free: int, stack: seq<nat>, chains: Chains, owner: seq<Owner>, n: nat, id: TraceId)
    requires ArenaOk(arena, free, stack, chains, owner, n)
    requires arena[n].next == -1
    requires id !in chains
    ensures ArenaOk(arena, free, stack, chains[id := [n]], owner[n := InChain(id, 0)], -1)
    ensures Locations(arena, chains[id := [n]]) == Locations(arena, chains)[id := [arena[n].spot]]
  {
    var chains', owner' := chains[id := [n]], owner[n := InChain(id, 0)];
    forall i | 0 <= i < |arena|
      ensures OwnerOk(i, owner'[i], stack, chains', -1)
    {
      assert OwnerOk(i, owner[i], stack, chains, n);
    }
    forall id' | id' in chains'
      ensures ChainOk(arena, id', chains'[id'], owner')
    {
      if id' != id {
        assert ChainOk(arena, id', chains[id'], owner);
      }
    }
    assert Spots(arena, [n]) == [arena[n].spot];
  }

  /** The chain that takes the loose node grows by it at the end. */
  lemma ChainGrows(arena: seq<Node>, owner: seq<Owner>, id: TraceId, chain: seq<nat>, n: nat)
    requires |owner| == |arena|
    requires ChainOk(arena, id, chain, owner)
    requires n < |arena| && owner[n] == Loose && arena[n].next == -1
    ensures chain[|chain| - 1] < |arena| && chain[|chain| - 1] != n && owner[chain[|chain| - 1]] == InChain(id, |chain| - 1)
    ensures var tail := chain[|chain| - 1];
            var arena' := arena[tail := arena[tail].(next := n)];
            && ChainOk(arena', id, chain + [n], owner[n := InChain(id, |chain|)])
            && Spots(arena', chain + [n]) == Spots(arena, chain) + [arena[n].spot]
  {
    var tail := chain[|chain| - 1];
    var arena', chain', owner' := arena[tail := arena[tail].(next := n)], chain + [n], owner[n := InChain(id, |chain|)];
    forall p | 0 <= p < |chain'|
      ensures chain'[p] < |arena'| && owner'[chain'[p]] == InChain(id, p)
      ensures arena'[chain'[p]].next == if p + 1 < |chain'| then chain'[p + 1] else -1
    {
      if p < |chain| {
        assert owner[chain[p]] == InChain(id, p);
      }
    }
  }

  /** A loose node is linked behind the tail of an existing chain. */
  lemma ExtendChain(arena: seq<Node>, free: int, stack: seq<nat>, chains: Chains, owner: seq<Owner>, n: nat, id: TraceId, tail: nat)
    requires ArenaOk(arena, free, stack, chains, owner, n)
    requires arena[n].next == -1
    requires id in chains && |chains[id]| > 0 && tail == chains[id][|chains[id]| - 1]
    ensures tail < |arena| && tail != n
    ensures ArenaOk(arena[tail := arena[tail].(next := n)], free, stack, chains[id := chains[id] + [n]],
                    owner[n := InChain(id, |chains[id]|)], -1)
    ensures Locations(arena[tail := arena[tail].(next := n)], chains[id := chains[id] + [n]])
         == Locations(arena, chains)[id := Locations(arena, chains)[id] + [arena[n].spot]]
  {
    hide ChainOk, Spots;
    var chain := chains[id];
    assert ChainOk(arena, id, chain, owner);
    ChainGrows(arena, owner, id, chain, n);
    var arena' := arena[tail := arena[tail].(next := n)];
    var chains', owner' := chains[id := chain + [n]], owner[n := InChain(id, |chain|)];
    forall i | 0 <= i < |arena|
      ensures OwnerOk(i, owner'[i], stack, chains', -1)
    {
      assert OwnerOk(i, owner[i], stack, chains, n);
    }
    forall id' | id' in chains && id' != id
      ensures ChainOk(arena', id', chains[id'], owner') && Spots(arena', chains[id']) == Spots(arena, chains[id'])
    {
      assert ChainOk(arena, id', chains[id'], owner);
      ChainFrame(arena, arena', owner, owner', id', chains[id']);
    }
  }

  /** What the nodes of `chain` look like once its first `k` have been pushed onto the free list. */
  ghost predicate PartlyFreed(was: seq<Node>, now: seq<Node>, free: int, chain: seq<nat>, k: nat) {
    && |now| == |was|
    && k <= |chain|
    && (forall j :: 0 <= j < |chain| ==> chain[j] < |was|)
    && (forall j {:trigger now[chain[j]]} :: 0 <= j < k ==> now[chain[j]] == was[chain[j]].(next := if j == 0 then free else chain[j - 1]))
    && (forall j {:trigger now[chain[j]]} :: k <= j < |chain| ==> now[chain[j]] == was[chain[j]])
    && (forall m :: 0 <= m < |was| && m !in chain ==> now[m] == was[m])
  }

  lemma ChainInArena(arena: seq<Node>, free: int, stack: seq<nat>, chains: Chains, owner: seq<Owner>, id: TraceId)
    requires ArenaOk(arena, free, stack, chains, owner, -1)
    requires id in chains
    ensures |chains[id]| > 0
    ensures forall p :: 0 <= p < |chains[id]| ==> chains[id][p] < |arena|
  {
    assert ChainOk(arena, id, chains[id], owner);
  }

  /** The nodes of one chain, pairwise distinct and linked in order. */
  lemma ChainNodes(arena: seq<Node>, free: int, stack: seq<nat>, chains: Chains, owner: seq<Owner>, id: TraceId)
    requires ArenaOk(arena, free, stack, chains, owner, -1)
    requires id in chains
    ensures |chains[id]| > 0
    ensures forall p :: 0 <= p < |chains[id]| ==> chains[id][p] < |arena|
    ensures forall p, q :: 0 <= p < q < |chains[id]| ==> chains[id][p] != chains[id][q]
    ensures forall p {:trigger arena[chains[id][p]]} :: 0 <= p < |chains[id]| ==>
      arena[chains[id][p]].next == if p + 1 < |chains[id]| then chains[id][p + 1] else -1
    ensures PartlyFreed(arena, arena, free, chains[id], 0)
  {
    var chain := chains[id];
    assert ChainOk(arena, id, chain, owner);
    forall p, q | 0 <= p < q < |chain|
      ensures chain[p] != chain[q]
    {
      assert owner[chain[p]] == InChain(id, p) && owner[chain[q]] == InChain(id, q);
    }
  }

  /** The nodes not yet pushed still carry their old link. */
  lemma NextOfPartlyFreed(was: seq<Node>, now: seq<Node>, free: int, chain: seq<nat>, k: nat)
    requires PartlyFreed(was, now, free, chain, k)
    requires k < |chain|
    ensures chain[k] < |was| == |now| && now[chain[k]] == was[chain[k]]
  {
  }

  /** One more node of a dying chain goes onto the free list. */
  lemma PushOne(was: seq<Node>, now: seq<Node>, free: int, chain: seq<nat>, k: nat)
    requires PartlyFreed(was, now, free, chain, k)
    requires k < |chain|
    requires forall p, q :: 0 <= p < q < |chain| ==> chain[p] != chain[q]
    ensures chain[k] < |now|
    ensures PartlyFreed(was, now[chain[k] := now[chain[k]].(next := if k == 0 then free else chain[k - 1])], free, chain, k + 1)
  {
  }

  /** Where the nodes of the old free list and of the freed chain end up. */
  lemma FreedNodes(arena: seq<Node>, arena': seq<Node>, free: int, stack: seq<nat>, owner: seq<Owner>, owner': seq<Owner>,
                   id: TraceId, chain: seq<nat>)
    requires |owner| == |arena| == |owner'|
    requires StackOk(arena, free, stack, owner)
    requires ChainOk(arena, id, chain, owner)
    requires PartlyFreed(arena, arena', free, chain, |chain|)
    requires forall i :: 0 <= i < |arena| ==>
      owner'[i] == if owner[i].InChain? && owner[i].id == id then OnFree(|stack| + owner[i].pos) else owner[i]
    ensures chain != [] && |arena'| == |arena|
    ensures forall p :: 0 <= p < |stack| ==> stack[p] < |arena| && owner'[stack[p]] == OnFree(p)
    ensures forall p {:trigger arena'[stack[p]]} :: 0 <= p < |stack| ==> arena'[stack[p]] == arena[stack[p]]
    ensures forall q :: 0 <= q < |chain| ==> chain[q] < |arena| && owner'[chain[q]] == OnFree(|stack| + q)
    ensures forall q {:trigger arena'[chain[q]]} :: 0 <= q < |chain| ==> arena'[chain[q]].next == if q == 0 then free else chain[q - 1]
    ensures forall i {:trigger arena'[i]} :: 0 <= i < |arena| && !(owner[i].InChain? && owner[i].id == id) ==> arena'[i] == arena[i]
  {
    forall i | 0 <= i < |arena| && !(owner[i].InChain? && owner[i].id == id)
      ensures arena'[i] == arena[i]
    {
      assert forall q :: 0 <= q < |chain| ==> owner[chain[q]] == InChain(id, q);
      assert i !in chain;
    }
    forall p | 0 <= p < |stack|
      ensures stack[p] < |arena| && owner'[stack[p]] == OnFree(p) && arena'[stack[p]] == arena[stack[p]]
    {
      assert owner[stack[p]] == OnFree(p);
    }
  }

  /** The freed chain sits on top of the free list, its last node topmost. */
  lemma FreedStackOk(arena: seq<Node>, arena': seq<Node>, free: int, stack: seq<nat>, owner: seq<Owner>, owner': seq<Owner>,
                     chain: seq<nat>)
    requires |owner| == |arena| == |owner'| == |arena'|
    requires StackOk(arena, free, stack, owner)
    requires chain != []
    requires forall p :: 0 <= p < |stack| ==> stack[p] < |arena| && owner'[stack[p]] == OnFree(p)
    requires forall p {:trigger arena'[stack[p]]} :: 0 <= p < |stack| ==> arena'[stack[p]] == arena[stack[p]]
    requires forall q :: 0 <= q < |chain| ==> chain[q] < |arena| && owner'[chain[q]] == OnFree(|stack| + q)
    requires forall q {:trigger arena'[chain[q]]} :: 0 <= q < |chain| ==> arena'[chain[q]].next == if q == 0 then free else chain[q - 1]
    ensures StackOk(arena', chain[|chain| - 1], stack + chain, owner')
  {
    var stack' := stack + chain;
    forall p | 0 <= p < |stack'|
      ensures arena'[stack'[p]].next == if p == 0 then -1 else stack'[p - 1]
    {
      if p < |stack| {
        assert arena[stack[p]].next == if p == 0 then -1 else stack[p - 1];
      } else {
        var q := p - |stack|;
        assert arena'[chain[q]].next == if q == 0 then free else chain[q - 1];
        assert q > 0 ==> stack'[p - 1] == chain[q - 1];
        assert q == 0 && p > 0 ==> stack'[p - 1] == stack[p - 1];
      }
    }
  }

  /** Ownership after the chain of `id` joined a free list of `base` nodes. */
  ghost function Reowned(owner: seq<Owner>, id: TraceId, base: nat): (owner': seq<Owner>)
    ensures |owner'| == |owner|
    ensures forall i :: 0 <= i < |owner| ==>
      owner'[i] == if owner[i].InChain? && owner[i].id == id then OnFree(base + owner[i].pos) else owner[i]
  {
    seq(|owner|, i requires 0 <= i < |owner| =>
      if owner[i].InChain? && owner[i].id == id then OnFree(base + owner[i].pos) else owner[i])
  }

  /** Freeing a whole chain moves its nodes to the free list and touches no other trace. */
  lemma FreeStep(arena: seq<Node>, arena': seq<Node>, free: int, stack: seq<nat>, chains: Chains, owner: seq<Owner>, id: TraceId)
    requires ArenaOk(arena, free, stack, chains, owner, -1)
    requires id in chains
    requires PartlyFreed(arena, arena', free, chains[id], |chains[id]|)
    ensures chains[id] != []
    ensures ArenaOk(arena', chains[id][|chains[id]| - 1], stack + chains[id], chains - {id}, Reowned(owner, id, |stack|), -1)
    ensures Locations(arena', chains - {id}) == Locations(arena, chains) - {id}
  {
    hide PartlyFreed, ChainOk, StackOk, Spots;
    var chain := chains[id];
    assert ChainOk(arena, id, chain, owner);
    var owner' := Reowned(owner, id, |stack|);
    FreedNodes(arena, arena', free, stack, owner, owner', id, chain);
    FreedStackOk(arena, arena', free, stack, owner, owner', chain);
    forall i | 0 <= i < |arena'|
      ensures OwnerOk(i, owner'[i], stack + chain, chains - {id}, -1)
    {
      assert OwnerOk(i, owner[i], stack, chains, -1);
      FreedOwner(i, owner[i], stack, chains, id);
    }
    forall id' | id' in chains - {id}
      ensures ChainOk(arena', id', chains[id'], owner') && Spots(arena', chains[id']) == Spots(arena, chains[id'])
    {
      assert ChainOk(arena, id', chains[id'], owner);
      ChainFrame(arena, arena', owner, owner', id', chains[id']);
    }
  }

  lemma FreedOwner(i: nat, o: Owner, stack: seq<nat>, chains: Chains, id: TraceId)
    requires OwnerOk(i, o, stack, chains, -1)
    requires id in chains
    ensures OwnerOk(i, if o.InChain? && o.id == id then OnFree(|stack| + o.pos) else o, stack + chains[id], chains - {id}, -1)
  {
  }

  lemma EmptyArenaOk()
    ensures ArenaOk([], -1, [], map[], [], -1)
  {
  }

  /** Packing: a node appended to an arena without a free list starts a chain. */
  lemma PackFirst(nodes: seq<Node>, done: Chains, owned: seq<Owner>, id: TraceId, spot: Spot)
    requires ArenaOk(nodes, -1, [], done, owned, -1)
    requires id !in done
    ensures ArenaOk(nodes + [Node(spot, -1)], -1, [], done[id := [|nodes|]], owned + [InChain(id, 0)], -1)
    ensures Locations(nodes + [Node(spot, -1)], done[id := [|nodes|]]) == Locations(nodes, done)[id := [spot]]
  {
    GrowStep(nodes, [], done, owned, spot);
    StartChain(nodes + [Node(spot, -1)], -1, [], done, owned + [Loose], |nodes|, id);
    assert (owned + [Loose])[|nodes| := InChain(id, 0)] == owned + [InChain(id, 0)];
  }

  /** Packing: a node appended to an arena without a free list extends a chain. */
  lemma PackNext(nodes: seq<Node>, done: Chains, owned: seq<Owner>, id: TraceId, spot: Spot, tail: nat)
    requires ArenaOk(nodes, -1, [], done, owned, -1)
    requires id in done && |done[id]| > 0 && tail == done[id][|done[id]| - 1]
    ensures tail < |nodes|
    ensures var nodes' := nodes + [Node(spot, -1)];
            var nodes'' := nodes'[tail := nodes'[tail].(next := |nodes|)];
            var done' := done[id := done[id] + [|nodes|]];
            && ArenaOk(nodes'', -1, [], done', owned + [InChain(id, |done[id]|)], -1)
            && Locations(nodes'', done') == Locations(nodes, done)[id := Locations(nodes, done)[id] + [spot]]
  {
    assert ChainOk(nodes, id, done[id], owned);
    hide ArenaOk, ChainOk;
    GrowStep(nodes, [], done, owned, spot);
    ExtendChain(nodes + [Node(spot, -1)], -1, [], done, owned + [Loose], |nodes|, id, tail);
    assert |owned| == |nodes| ==> (owned + [Loose])[|nodes| := InChain(id, |done[id]|)] == owned + [InChain(id, |done[id]|)];
  }
}
