/**
 The trace index: an open-addressing table from trace id to a chain of record
 locations in a shared arena. The specification is the plain map
 `Contents()` from trace id to its list of locations, oldest first.
 */
module Index {
  import opened Types
  import opened Probing
  import opened IndexArena

  const INITIAL_SLOTS: nat := 1024
  const ARENA_COMPACT_FLOOR: nat := 1024

  /** `head` and `tail` are arena indices plus one; `head` is 0 in an empty slot and -1 in a tombstone. */
  datatype Slot = Slot(id: TraceId, head: int, tail: int)

  const EMPTY_SLOT := Slot(0, 0, 0)

  function CellOf(s: Slot): (c: Cell<TraceId>)
    ensures c.Full? <==> s.head != 0 && s.head != -1
  {
    if s.head == 0 then Empty else if s.head == -1 then Tomb else Full(s.id)
  }

  function View(slots: seq<Slot>): (cells: seq<Cell<TraceId>>)
    ensures |cells| == |slots|
    ensures forall j :: 0 <= j < |slots| ==> cells[j] == CellOf(slots[j])
  {
    seq(|slots|, j requires 0 <= j < |slots| => CellOf(slots[j]))
  }

  /** The table is probe-consistent and its counters are in step. */
  ghost predicate TableRep(hash: (TraceId, nat) -> nat, slots: seq<Slot>, live: nat, tombs: nat) {
    && TableOk(hash, View(slots))
    && Fulls(View(slots)) == live
    && Tombs(View(slots)) == tombs
  }

  ghost predicate SlotOk(s: Slot, chains: Chains) {
    && s.head >= -1
    && (s.head > 0 ==>
          && s.id in chains
          && |chains[s.id]| > 0
          && s.head == chains[s.id][0] + 1
          && s.tail == chains[s.id][|chains[s.id]| - 1] + 1)
  }

  /** Slots and chains correspond one to one. */
  ghost predicate SlotsOk(slots: seq<Slot>, chains: Chains) {
    && (forall i :: 0 <= i < |slots| ==> SlotOk(slots[i], chains))
    && (forall id :: id in chains ==> Full(id) in View(slots))
  }

  lemma FullIffChained(slots: seq<Slot>, chains: Chains, id: TraceId)
    requires SlotsOk(slots, chains)
    ensures Full(id) in View(slots) <==> id in chains
  {
    if Full(id) in View(slots) {
      var j :| 0 <= j < |slots| && View(slots)[j] == Full(id);
      assert SlotOk(slots[j], chains);
    }
  }

  /** A new chain takes the slot where its id belongs. */
  lemma FillSlot(hash: (TraceId, nat) -> nat, slots: seq<Slot>, live: nat, tombs: nat, chains: Chains, id: TraceId, i: nat, n: nat)
    requires TableRep(hash, slots, live, tombs) && SlotsOk(slots, chains)
    requires Insertable(hash, View(slots), id, i)
    ensures i < |slots| && (slots[i].head == -1 ==> tombs > 0)
    ensures TableRep(hash, slots[i := Slot(id, n + 1, n + 1)], live + 1, if slots[i].head == -1 then tombs - 1 else tombs)
    ensures SlotsOk(slots[i := Slot(id, n + 1, n + 1)], chains[id := [n]])
  {
    var cells := View(slots);
    var slots', chains' := slots[i := Slot(id, n + 1, n + 1)], chains[id := [n]];
    assert View(slots') == cells[i := Full(id)];
    InsertKeepsTable(hash, cells, id, i);
    CountsAfterUpdate(cells, i, Full(id));
    FullIffChained(slots, chains, id);
    forall j | 0 <= j < |slots'|
      ensures SlotOk(slots'[j], chains')
    {
      assert SlotOk(slots[j], chains);
    }
    forall id' | id' in chains'
      ensures Full(id') in View(slots')
    {
      if id' == id {
        assert View(slots')[i] == Full(id);
      } else {
        var j :| 0 <= j < |cells| && cells[j] == Full(id');
        assert View(slots')[j] == Full(id');
      }
    }
  }

  /** The slot of a chain that grew at its end moves its tail. */
  lemma MoveTail(hash: (TraceId, nat) -> nat, slots: seq<Slot>, live: nat, tombs: nat, chains: Chains, i: nat, n: nat)
    requires TableRep(hash, slots, live, tombs) && SlotsOk(slots, chains)
    requires i < |slots| && slots[i].head > 0
    ensures slots[i].id in chains
    ensures TableRep(hash, slots[i := slots[i].(tail := n + 1)], live, tombs)
    ensures SlotsOk(slots[i := slots[i].(tail := n + 1)], chains[slots[i].id := chains[slots[i].id] + [n]])
  {
    var id := slots[i].id;
    assert SlotOk(slots[i], chains);
    var slots', chains' := slots[i := slots[i].(tail := n + 1)], chains[id := chains[id] + [n]];
    assert View(slots') == View(slots);
    forall j | 0 <= j < |slots'|
      ensures SlotOk(slots'[j], chains')
    {
      assert SlotOk(slots[j], chains);
      assert j != i && View(slots)[j].Full? ==> View(slots)[j] != View(slots)[i];
    }
  }

  /** A dead chain's slot becomes a tombstone. */
  lemma BurySlot(hash: (TraceId, nat) -> nat, slots: seq<Slot>, live: nat, tombs: nat, chains: Chains, i: nat)
    requires TableRep(hash, slots, live, tombs) && SlotsOk(slots, chains)
    requires i < |slots| && slots[i].head > 0
    ensures live > 0
    ensures TableRep(hash, slots[i := slots[i].(head := -1, tail := 0)], live - 1, tombs + 1)
    ensures SlotsOk(slots[i := slots[i].(head := -1, tail := 0)], chains - {slots[i].id})
  {
    var cells, id := View(slots), slots[i].id;
    var slots', chains' := slots[i := slots[i].(head := -1, tail := 0)], chains - {id};
    assert cells[i] == Full(id);
    assert View(slots') == cells[i := Tomb];
    EraseKeepsTable(hash, cells, i);
    CountsAfterUpdate(cells, i, Tomb);
    forall j | 0 <= j < |slots'|
      ensures SlotOk(slots'[j], chains')
    {
      assert SlotOk(slots[j], chains);
      assert j != i && cells[j].Full? ==> cells[j] != cells[i];
    }
    forall id' | id' in chains'
      ensures Full(id') in View(slots')
    {
      var j :| 0 <= j < |cells| && cells[j] == Full(id');
      assert View(slots')[j] == Full(id');
    }
  }

  lemma TableFacts(hash: (TraceId, nat) -> nat, slots: seq<Slot>, live: nat, tombs: nat)
    requires TableRep(hash, slots, live, tombs)
    ensures TableOk(hash, View(slots))
    ensures Fulls(View(slots)) == live
  {
  }

  /** The slot found for a present id holds its chain's ends. */
  lemma FoundSlot(slots: seq<Slot>, chains: Chains, id: TraceId, i: nat)
    requires SlotsOk(slots, chains)
    requires i < |slots| && View(slots)[i] == Full(id)
    ensures slots[i].id == id && slots[i].head > 0 && id in chains && |chains[id]| > 0
    ensures slots[i].head == chains[id][0] + 1
    ensures slots[i].tail == chains[id][|chains[id]| - 1] + 1
  {
    assert SlotOk(slots[i], chains);
  }

  ghost function LiveSlots(slots: seq<Slot>): (live: set<Slot>) {
    set s | s in slots && s.head > 0
  }

  /** A rebuilt table holds exactly the live slots of the first `k` old ones. */
  ghost predicate Copied(was: seq<Slot>, slots: seq<Slot>, k: nat) {
    && k <= |was|
    && LiveSlots(slots) == LiveSlots(was[..k])
    && (forall j :: 0 <= j < |slots| ==> slots[j].head >= 0)
    && Fulls(View(slots)) == Fulls(View(was[..k]))
  }

  lemma EmptyTable(hash: (TraceId, nat) -> nat, was: seq<Slot>, size: nat)
    requires size > 0
    ensures TableRep(hash, seq(size, _ => EMPTY_SLOT), 0, 0)
    ensures Copied(was, seq(size, _ => EMPTY_SLOT), 0)
  {
    CountsOfEmpty(View(seq(size, _ => EMPTY_SLOT)));
  }

  /** The prefix count after one more old slot. */
  lemma FullsOfNext(was: seq<Slot>, k: nat)
    requires k < |was| && was[k].head >= -1
    ensures Fulls(View(was[..k + 1])) == Fulls(View(was[..k])) + if was[k].head > 0 then 1 else 0
    ensures Fulls(View(was[..k + 1])) <= Fulls(View(was))
  {
    assert View(was[..k + 1])[..k] == View(was[..k]);
    assert View(was[..k + 1]) == View(was)[..k + 1];
    FullsOfPrefix(View(was), k + 1);
  }

  lemma SkipSlot(was: seq<Slot>, slots: seq<Slot>, chains: Chains, k: nat)
    requires SlotsOk(was, chains)
    requires k < |was| && was[k].head <= 0
    requires Copied(was, slots, k)
    ensures Copied(was, slots, k + 1)
  {
    assert SlotOk(was[k], chains);
    FullsOfNext(was, k);
    assert was[..k + 1] == was[..k] + [was[k]];
  }

  /** An old slot's id is not in the new table before its turn, and there is room for it. */
  lemma NotYetCopied(was: seq<Slot>, slots: seq<Slot>, chains: Chains, k: nat)
    requires SlotsOk(was, chains) && Distinct(View(was))
    requires k < |was| && was[k].head > 0
    requires Copied(was, slots, k)
    requires Fulls(View(was)) < |slots|
    ensures Full(was[k].id) !in View(slots)
    ensures Fulls(View(slots)) < |slots|
  {
    FullsOfNext(was, k);
    assert View(was)[k] == Full(was[k].id);
    forall j | 0 <= j < |slots|
      ensures View(slots)[j] != Full(was[k].id)
    {
      if slots[j].head > 0 {
        assert slots[j] in LiveSlots(slots);
        var i :| 0 <= i < k && was[i] == slots[j];
        assert View(was)[i] != View(was)[k];
      }
    }
  }

  lemma CopySlot(hash: (TraceId, nat) -> nat, was: seq<Slot>, slots: seq<Slot>, live: nat, chains: Chains, k: nat, i: nat)
    requires SlotsOk(was, chains)
    requires k < |was| && was[k].head > 0
    requires Copied(was, slots, k)
    requires TableRep(hash, slots, live, 0)
    requires Insertable(hash, View(slots), was[k].id, i)
    ensures i < |slots|
    ensures TableRep(hash, slots[i := was[k]], live + 1, 0)
    ensures Copied(was, slots[i := was[k]], k + 1)
  {
    var cells, id := View(slots), was[k].id;
    var slots' := slots[i := was[k]];
    FullsOfNext(was, k);
    assert View(slots') == cells[i := Full(id)];
    InsertKeepsTable(hash, cells, id, i);
    CountsAfterUpdate(cells, i, Full(id));
    assert was[..k + 1] == was[..k] + [was[k]];
    forall s
      ensures s in LiveSlots(slots') <==> s in LiveSlots(was[..k]) || s == was[k]
    {
      if s in LiveSlots(slots) {
        var j :| 0 <= j < |slots| && slots[j] == s;
        assert slots'[j] == s;
      }
      assert slots'[i] == was[k];
    }
  }

  /** A complete copy keeps the chains reachable. */
  lemma CopiedAll(was: seq<Slot>, slots: seq<Slot>, chains: Chains)
    requires SlotsOk(was, chains)
    requires Copied(was, slots, |was|)
    ensures SlotsOk(slots, chains)
    ensures Fulls(View(slots)) == Fulls(View(was))
  {
    assert was[..|was|] == was;
    forall j | 0 <= j < |slots|
      ensures SlotOk(slots[j], chains)
    {
      if slots[j].head > 0 {
        assert slots[j] in LiveSlots(slots);
        var i :| 0 <= i < |was| && was[i] == slots[j];
        assert SlotOk(was[i], chains);
      }
    }
    forall id | id in chains
      ensures Full(id) in View(slots)
    {
      var i :| 0 <= i < |was| && View(was)[i] == Full(id);
      assert SlotOk(was[i], chains);
      assert was[i] in LiveSlots(slots);
      var j :| 0 <= j < |slots| && slots[j] == was[i];
      assert View(slots)[j] == Full(id);
    }
  }

  function NewestGen(spots: seq<Spot>): (g: nat)
    requires spots != []
  {
    spots[|spots| - 1].gen
  }

  /** The newest location of a live slot's trace is the one its tail refers to. */
  lemma TailIsNewest(arena: seq<Node>, free: int, stack: seq<nat>, owner: seq<Owner>, slots: seq<Slot>, chains: Chains, i: nat)
    requires SlotsOk(slots, chains)
    requires ArenaOk(arena, free, stack, chains, owner, -1)
    requires i < |slots| && slots[i].head > 0
    ensures slots[i].id in chains && |chains[slots[i].id]| > 0
    ensures slots[i].head == chains[slots[i].id][0] + 1
    ensures 1 <= slots[i].tail <= |arena|
    ensures Locations(arena, chains)[slots[i].id] != []
    ensures NewestGen(Locations(arena, chains)[slots[i].id]) == arena[slots[i].tail - 1].spot.gen
  {
    hide ArenaOk, ChainOk;
    assert SlotOk(slots[i], chains);
    var chain := chains[slots[i].id];
    ChainInArena(arena, free, stack, chains, owner, slots[i].id);
    assert Locations(arena, chains)[slots[i].id] == Spots(arena, chain);
    assert Spots(arena, chain)[|chain| - 1] == arena[chain[|chain| - 1]].spot;
  }

  /** Slot `i` holds a trace whose newest location is older than `minGen`. */
  ghost predicate DeadAt(slots: seq<Slot>, contents: map<TraceId, seq<Spot>>, i: nat, minGen: nat) {
    && i < |slots|
    && slots[i].head > 0
    && slots[i].id in contents
    && contents[slots[i].id] != []
    && NewestGen(contents[slots[i].id]) < minGen
  }

  /** What is dead depends on which traces the slots hold, not on where their chains lie. */
  lemma DeadStaysDead(was: seq<Slot>, slots: seq<Slot>, contents: map<TraceId, seq<Spot>>, minGen: nat)
    requires |slots| == |was|
    requires forall j :: 0 <= j < |slots| ==> slots[j].id == was[j].id && (slots[j].head > 0 <==> was[j].head > 0)
    ensures forall j :: DeadAt(slots, contents, j, minGen) <==> DeadAt(was, contents, j, minGen)
  {
  }

  /** Burying one slot kills no other. */
  lemma BuriedNotDead(slots: seq<Slot>, contents: map<TraceId, seq<Spot>>, i: nat, minGen: nat)
    requires i < |slots|
    ensures var slots' := slots[i := slots[i].(head := -1, tail := 0)];
            forall j :: DeadAt(slots', contents - {slots[i].id}, j, minGen) ==> j != i && DeadAt(slots, contents, j, minGen)
  {
  }

  /** The slot `k` steps after a rotating cursor, which may itself lie past a table that has shrunk. */
  function Window(cursor: nat, k: nat, total: nat): (i: nat)
    requires total > 0
    ensures i < total
  {
    (cursor + k) % total
  }

  /** A full pass of the rotating window reaches every slot. */
  lemma WindowCovers(cursor: nat, total: nat, i: nat) returns (k: nat)
    requires i < total
    ensures k < total && Window(cursor, k, total) == i
  {
    var q, r := cursor / total, cursor % total;
    k := if r <= i then i - r else i + total - r;
    var q' := if r <= i then q else q + 1;
    assert cursor == q * total + r;
    assert (q + 1) * total == q * total + total;
    RemainderIsUnique(cursor + k, q', i, total);
  }

  /** Moving the cursor on by `a` moves the window on by `a`. */
  lemma WindowMoves(cursor: nat, a: nat, k: nat, total: nat)
    requires total > 0
    ensures Window(Window(cursor, a, total), k, total) == Window(cursor, a + k, total)
  {
    var q, r := (cursor + a) / total, (cursor + a) % total;
    var q', r' := (r + k) / total, (r + k) % total;
    assert cursor + a + k == q * total + (q' * total + r');
    assert (q + q') * total == q * total + q' * total;
    RemainderIsUnique(cursor + a + k, q + q', r', total);
  }

  lemma RemainderIsUnique(x: int, q: int, r: int, n: int)
    requires 0 <= r < n && x == q * n + r
    ensures x % n == r
  {
    var d := x / n - q;
    assert d * n == (x / n) * n - q * n;
    assert d * n == r - x % n;
    assert d >= 1 ==> d * n >= n;
    assert d <= -1 ==> d * n <= -n;
  }

  /** Once a window as wide as the table has been swept, no dead trace is left anywhere. */
  lemma FullPassLeavesNoneDead(slots: seq<Slot>, chains: Chains, contents: map<TraceId, seq<Spot>>, cursor: nat, minGen: nat, id: TraceId)
    requires SlotsOk(slots, chains) && contents.Keys == chains.Keys
    requires forall k :: 0 <= k < |slots| ==> !DeadAt(slots, contents, Window(cursor, k, |slots|), minGen)
    requires id in contents && contents[id] != []
    ensures NewestGen(contents[id]) >= minGen
  {
    var i :| 0 <= i < |slots| && View(slots)[i] == Full(id);
    assert SlotOk(slots[i], chains);
    var k := WindowCovers(cursor, |slots|, i);
    assert !DeadAt(slots, contents, Window(cursor, k, |slots|), minGen);
  }

  /** The first `i` slots refer into the new chains, the rest are as they were. */
  ghost predicate Repacked(was: seq<Slot>, slots: seq<Slot>, i: nat, done: Chains) {
    && i <= |was| == |slots|
    && (forall j :: i <= j < |was| ==> slots[j] == was[j])
    && (forall j :: 0 <= j < i ==> slots[j].id == was[j].id && CellOf(slots[j]) == CellOf(was[j]) && SlotOk(slots[j], done))
    && (forall id :: id in done ==> Full(id) in View(was)[..i])
    && (forall j :: 0 <= j < |was| ==> was[j].head >= -1)
  }

  lemma NothingPacked(was: seq<Slot>, chains: Chains)
    requires SlotsOk(was, chains)
    ensures Repacked(was, was, 0, map[])
  {
    assert forall j :: 0 <= j < |was| ==> SlotOk(was[j], chains);
  }

  lemma SkipPacked(was: seq<Slot>, slots: seq<Slot>, i: nat, done: Chains)
    requires Repacked(was, slots, i, done)
    requires i < |was| && was[i].head <= 0
    ensures Repacked(was, slots, i + 1, done)
  {
    assert View(was)[..i + 1] == View(was)[..i] + [View(was)[i]];
  }

  /** A slot's id has no new chain before its turn. */
  lemma NotYetPacked(hash: (TraceId, nat) -> nat, was: seq<Slot>, live: nat, tombs: nat, slots: seq<Slot>, i: nat, done: Chains)
    requires TableRep(hash, was, live, tombs)
    requires Repacked(was, slots, i, done)
    requires i < |was| && was[i].head > 0
    ensures was[i].id !in done
  {
    assert View(was)[i] == Full(was[i].id);
    forall j | 0 <= j < i
      ensures View(was)[..i][j] != Full(was[i].id)
    {
      assert View(was)[j] != View(was)[i];
    }
  }

  lemma PackSlot(was: seq<Slot>, slots: seq<Slot>, i: nat, done: Chains, done': Chains, newHead: nat, newTail: nat)
    requires Repacked(was, slots, i, done)
    requires i < |was| && was[i].head > 0 && was[i].id !in done
    requires was[i].id in done' && done' - {was[i].id} == done
    requires |done'[was[i].id]| > 0
    requires newHead == done'[was[i].id][0] && newTail == done'[was[i].id][|done'[was[i].id]| - 1]
    ensures Repacked(was, slots[i := Slot(was[i].id, newHead + 1, newTail + 1)], i + 1, done')
  {
    var id := was[i].id;
    var slots' := slots[i := Slot(id, newHead + 1, newTail + 1)];
    assert forall id' :: id' in done ==> id' in done' && done'[id'] == done[id'];
    assert SlotOk(slots'[i], done') && CellOf(slots'[i]) == CellOf(was[i]);
    assert View(was)[..i + 1] == View(was)[..i] + [Full(id)];
    hide View;
    forall j | 0 <= j < i
      ensures SlotOk(slots'[j], done')
    {
      OtherSlotOk(slots[j], done, done');
    }
    hide SlotOk, CellOf;
    forall id' | id' in done'
      ensures Full(id') in View(was)[..i + 1]
    {
      if id' != id {
        assert id' in done;
      }
    }
  }

  /** A slot of the old chains is one of the new. */
  lemma OtherSlotOk(s: Slot, done: Chains, done': Chains)
    requires SlotOk(s, done) && forall id :: id in done ==> id in done' && done'[id] == done[id]
    ensures SlotOk(s, done')
  {
  }

  /** A finished repacking has the same table and the same traces. */
  lemma AllPacked(hash: (TraceId, nat) -> nat, was: seq<Slot>, live: nat, tombs: nat, slots: seq<Slot>, chains: Chains, done: Chains)
    requires TableRep(hash, was, live, tombs) && SlotsOk(was, chains)
    requires Repacked(was, slots, |was|, done)
    ensures TableRep(hash, slots, live, tombs) && SlotsOk(slots, done)
    ensures done.Keys == chains.Keys
    ensures forall j :: 0 <= j < |slots| ==> slots[j].id == was[j].id && (slots[j].head > 0 <==> was[j].head > 0)
  {
    assert View(slots) == View(was);
    assert View(was)[..|was|] == View(was);
    assert forall j :: 0 <= j < |slots| ==> SlotOk(slots[j], done) && CellOf(slots[j]) == CellOf(was[j]);
    forall id
      ensures id in done.Keys <==> id in chains.Keys
    {
      FullIffChained(was, chains, id);
      if id in chains {
        var j :| 0 <= j < |was| && View(was)[j] == Full(id);
        assert SlotOk(slots[j], done);
      }
    }
    forall id | id in done
      ensures Full(id) in View(slots)
    {
      assert Full(id) in View(was)[..|was|];
    }
  }

  class Index {
    const hash: (TraceId, nat) -> nat
    var slots: seq<Slot>
    var arena: seq<Node>
    var free: int
    var freeLen: nat
    var liveCount: nat
    var tombs: nat
    var cursor: nat
    ghost var chains: Chains
    ghost var stack: seq<nat>
    ghost var owner: seq<Owner>

    ghost predicate Valid()
      reads this
    {
      && |slots| > 0
      && TableRep(hash, slots, liveCount, tombs)
      && SlotsOk(slots, chains)
      && ArenaOk(arena, free, stack, chains, owner, -1)
      && freeLen == |stack|
    }

    /** The plain map the index stands for. */
    ghost function Contents(): (m: map<TraceId, seq<Spot>>)
      reads this
      ensures m.Keys == chains.Keys
    {
      Locations(arena, chains)
    }

    constructor (hash: (TraceId, nat) -> nat)
      ensures Valid() && Contents() == map[]
    {
      this.hash := hash;
      slots := seq(INITIAL_SLOTS, _ => EMPTY_SLOT);
      arena, free, freeLen, liveCount, tombs, cursor := [], -1, 0, 0, 0, 0;
      chains, stack, owner := map[], [], [];
      new;
      CountsOfEmpty(View(slots));
    }

    method FindSlot(id: TraceId) returns (i: int, found: bool)
      requires TableOk(hash, View(slots))
      ensures found <==> Full(id) in View(slots)
      ensures found ==> 0 <= i < |slots| && View(slots)[i] == Full(id)
      ensures !found ==> if i < 0 then Fulls(View(slots)) == |slots| else Insertable(hash, View(slots), id, i)
    {
      ghost var cells := View(slots);
      var n := |slots|;
      var start := Home(hash, id, n);
      i := -1;
      ghost var tombAt := 0;
      var p := 0;
      while p < n
        invariant 0 <= p <= n
        invariant forall q :: 0 <= q < p ==> OnPath(hash, cells, id, q) != Full(id) && !OnPath(hash, cells, id, q).Empty?
        invariant i < 0 ==> forall q :: 0 <= q < p ==> OnPath(hash, cells, id, q).Full?
        invariant i >= 0 ==> tombAt < p && i == ProbeAt(start, tombAt, n) && cells[i].Tomb?
        invariant i >= 0 ==> forall q :: 0 <= q < tombAt ==> OnPath(hash, cells, id, q).Full?
      {
        var j := ProbeAt(start, p, n);
        assert cells[j] == OnPath(hash, cells, id, p);
        if slots[j].head == 0 {
          ProbeEndProvesAbsence(hash, cells, id, p);
          i, found := if i >= 0 then i else j, false;
          return;
        } else if slots[j].head == -1 {
          if i < 0 {
            i, tombAt := j, p;
          }
        } else if slots[j].id == id {
          return j, true;
        }
        p := p + 1;
      }
      ProbeEndProvesAbsence(hash, cells, id, n);
      if i < 0 {
        AllFullSaturates(hash, cells, id);
      }
      found := false;
    }

    /** Pop a node off the free list, or append one to the arena. */
    method Alloc(spot: Spot) returns (n: nat)
      requires Valid()
      modifies this`arena, this`free, this`freeLen, this`stack, this`owner
      ensures ArenaOk(arena, free, stack, chains, owner, n) && freeLen == |stack|
      ensures n < |arena| == |owner| && arena[n] == Node(spot, -1)
      ensures Contents() == old(Contents())
      ensures if old(freeLen) > 0 then |arena| == old(|arena|) && freeLen == old(freeLen) - 1
              else |arena| == old(|arena|) + 1 && freeLen == 0
    {
      hide TableRep, SlotsOk;
      FreeIffStacked(arena, free, stack, chains, owner);
      if free >= 0 {
        PopStep(arena, free, stack, chains, owner, spot);
        n := free;
        free := arena[n].next;
        freeLen := freeLen - 1;
        arena := arena[n := Node(spot, -1)];
        stack, owner := stack[..|stack| - 1], owner[n := Loose];
      } else {
        GrowStep(arena, stack, chains, owner, spot);
        n := |arena|;
        arena := arena + [Node(spot, -1)];
        owner := owner + [Loose];
      }
    }

    /** Append a location to the chain of `id`, creating the chain if it is absent. */
    method Put(id: TraceId, spot: Spot)
      requires Valid()
      modifies this
      ensures Valid()
      ensures Contents() == old(Contents())[id := (if id in old(Contents()) then old(Contents())[id] else []) + [spot]]
      ensures |arena| == old(|arena|) + (if old(freeLen) > 0 then 0 else 1) && cursor == old(cursor)
    {
      hide TableRep, SlotsOk, ArenaOk, Insertable;
      if (liveCount + tombs) * 4 >= 3 * |slots| {
        Grow();
      }
      TableFacts(hash, slots, liveCount, tombs);
      FullIffChained(slots, chains, id);
      var i, found := FindSlot(id);
      if found {
        FoundSlot(slots, chains, id, i);
        Extend(id, i, spot);
      } else {
        assert [] + [spot] == [spot];
        Start(id, i, spot);
      }
    }

    /** The chain whose slot is `i` takes one more location at its tail. */
    method Extend(id: TraceId, i: nat, spot: Spot)
      requires Valid()
      requires i < |slots| && slots[i].id == id && slots[i].head > 0
      requires id in chains && |chains[id]| > 0 && slots[i].tail == chains[id][|chains[id]| - 1] + 1
      modifies this
      ensures Valid()
      ensures id in old(Contents()) && Contents() == old(Contents())[id := old(Contents())[id] + [spot]]
      ensures |arena| == old(|arena|) + (if old(freeLen) > 0 then 0 else 1) && cursor == old(cursor)
    {
      hide TableRep, SlotsOk, ArenaOk;
      var n := Alloc(spot);
      ExtendChain(arena, free, stack, chains, owner, n, id, slots[i].tail - 1);
      MoveTail(hash, slots, liveCount, tombs, chains, i, n);
      arena := arena[slots[i].tail - 1 := arena[slots[i].tail - 1].(next := n)];
      owner := owner[n := InChain(id, |chains[id]|)];
      chains := chains[id := chains[id] + [n]];
      slots := slots[i := slots[i].(tail := n + 1)];
    }

    /** An absent trace starts a chain in slot `i`. */
    method Start(id: TraceId, i: nat, spot: Spot)
      requires Valid()
      requires id !in chains && Insertable(hash, View(slots), id, i)
      modifies this
      ensures Valid()
      ensures Contents() == old(Contents())[id := [spot]]
      ensures |arena| == old(|arena|) + (if old(freeLen) > 0 then 0 else 1) && cursor == old(cursor)
    {
      hide TableRep, SlotsOk, ArenaOk, Insertable;
      var n := Alloc(spot);
      StartChain(arena, free, stack, chains, owner, n, id);
      FillSlot(hash, slots, liveCount, tombs, chains, id, i, n);
      owner := owner[n := InChain(id, 0)];
      chains := chains[id := [n]];
      if slots[i].head == -1 {
        tombs := tombs - 1;
      }
      slots := slots[i := Slot(id, n + 1, n + 1)];
      liveCount := liveCount + 1;
    }

    /** Re-insert the live slots into a table of `size` slots, dropping tombstones. */
    method Rehash(size: nat)
      requires Valid()
      requires liveCount < size
      modifies this`slots, this`liveCount, this`tombs
      ensures Valid()
      ensures |slots| == size && tombs == 0 && liveCount == old(liveCount)
    {
      hide TableRep, SlotsOk, Insertable, ArenaOk, Copied;
      var was := slots;
      TableFacts(hash, was, liveCount, tombs);
      slots := seq(size, _ => EMPTY_SLOT);
      liveCount, tombs := 0, 0;
      EmptyTable(hash, was, size);
      var k := 0;
      while k < |was|
        invariant 0 <= k <= |was|
        invariant |slots| == size && tombs == 0
        invariant TableRep(hash, slots, liveCount, 0)
        invariant Copied(was, slots, k)
      {
        var s := was[k];
        if s.head <= 0 {
          SkipSlot(was, slots, chains, k);
        } else {
          NotYetCopied(was, slots, chains, k);
          TableFacts(hash, slots, liveCount, 0);
          var i, found := FindSlot(s.id);
          CopySlot(hash, was, slots, liveCount, chains, k, i);
          slots := slots[i := s];
          liveCount := liveCount + 1;
        }
        k := k + 1;
      }
      CopiedAll(was, slots, chains);
      TableFacts(hash, slots, liveCount, 0);
    }

    /** Rehash into the smallest power-of-two table that keeps the load under three quarters. */
    method Grow()
      requires Valid()
      modifies this`slots, this`liveCount, this`tombs
      ensures Valid()
      ensures liveCount == old(liveCount) && tombs == 0
      ensures liveCount * 4 < 3 * |slots|
      ensures |slots| == 1 || 3 * |slots| <= 8 * liveCount
    {
      hide TableRep, SlotsOk, ArenaOk;
      var size := 1;
      while 3 * size <= 4 * liveCount
        invariant size >= 1
        invariant size == 1 || 3 * size <= 8 * liveCount
      {
        size := 2 * size;
      }
      Rehash(size);
    }

    /** The arena index of the oldest location of `id`, or -1. */
    method Head(id: TraceId) returns (i: int)
      requires Valid()
      ensures id in chains ==> |chains[id]| > 0 && i == chains[id][0]
      ensures id !in chains ==> i == -1
    {
      hide TableRep, SlotsOk, ArenaOk, Insertable;
      TableFacts(hash, slots, liveCount, tombs);
      FullIffChained(slots, chains, id);
      var j, found := FindSlot(id);
      if !found {
        return -1;
      }
      FoundSlot(slots, chains, id, j);
      i := slots[j].head - 1;
    }

    method At(i: nat) returns (node: Node)
      requires i < |arena|
      ensures node == arena[i]
    {
      node := arena[i];
    }

    /** The arena indices of the chain of `id`, empty when it has none. */
    ghost function ChainOf(id: TraceId): (chain: seq<nat>)
      reads this
    {
      if id in chains then chains[id] else []
    }

    lemma ChainLength(id: TraceId)
      requires Valid()
      ensures |ChainOf(id)| == if id in Contents() then |Contents()[id]| else 0
    {
    }

    /** Walking a chain visits the locations of its trace in order. */
    lemma ChainStep(id: TraceId, k: nat)
      requires Valid()
      requires k < |ChainOf(id)|
      ensures id in Contents() && k < |Contents()[id]|
      ensures ChainOf(id)[k] < |arena| && arena[ChainOf(id)[k]].spot == Contents()[id][k]
      ensures arena[ChainOf(id)[k]].next == if k + 1 < |ChainOf(id)| then ChainOf(id)[k + 1] else -1
    {
      ChainNodes(arena, free, stack, chains, owner, id);
    }

    /** Push every node of the chain of `id` onto the free list. */
    method FreeChain(head: int, ghost id: TraceId)
      requires ArenaOk(arena, free, stack, chains, owner, -1) && freeLen == |stack|
      requires id in chains && |chains[id]| > 0 && head == chains[id][0]
      modifies this`arena, this`free, this`freeLen, this`stack, this`owner, this`chains
      ensures ArenaOk(arena, free, stack, chains, owner, -1) && freeLen == |stack|
      ensures chains == old(chains) - {id}
      ensures Contents() == old(Contents()) - {id}
    {
      hide ArenaOk, PartlyFreed;
      ghost var chain := chains[id];
      ChainNodes(arena, free, stack, chains, owner, id);
      ghost var k := 0;
      var i := head;
      while i >= 0
        invariant k <= |chain|
        invariant i == if k < |chain| then chain[k] else -1
        invariant free == if k == 0 then old(free) else chain[k - 1]
        invariant freeLen == old(freeLen) + k
        invariant PartlyFreed(old(arena), arena, old(free), chain, k)
        decreases |chain| - k
        modifies this`arena, this`free, this`freeLen
      {
        NextOfPartlyFreed(old(arena), arena, old(free), chain, k);
        PushOne(old(arena), arena, old(free), chain, k);
        var next := arena[i].next;
        arena := arena[i := arena[i].(next := free)];
        free := i;
        freeLen := freeLen + 1;
        i := next;
        k := k + 1;
      }
      FreeStep(old(arena), arena, old(free), stack, chains, owner, id);
      owner := Reowned(owner, id, |stack|);
      stack := stack + chain;
      chains := chains - {id};
    }

    /** Tombstone slot `i` and free its chain. */
    method Bury(i: nat)
      requires Valid()
      requires i < |slots| && slots[i].head > 0
      modifies this`slots, this`arena, this`free, this`freeLen, this`liveCount, this`tombs, this`chains, this`stack, this`owner
      ensures Valid()
      ensures slots == old(slots)[i := old(slots)[i].(head := -1, tail := 0)]
      ensures Contents() == old(Contents()) - {old(slots)[i].id}
    {
      hide TableRep, SlotsOk, ArenaOk;
      TailIsNewest(arena, free, stack, owner, slots, chains, i);
      BurySlot(hash, slots, liveCount, tombs, chains, i);
      FreeChain(slots[i].head - 1, slots[i].id);
      slots := slots[i := slots[i].(head := -1, tail := 0)];
      liveCount := liveCount - 1;
      tombs := tombs + 1;
    }

    /** Copy one chain into a new arena, packed in order. */
    method CopyChain(nodes: seq<Node>, head: int, ghost id: TraceId, ghost done: Chains, ghost owned: seq<Owner>)
        returns (nodes': seq<Node>, newHead: int, newTail: int, ghost done': Chains, ghost owned': seq<Owner>)
      requires ArenaOk(arena, free, stack, chains, owner, -1)
      requires id in chains && |chains[id]| > 0 && head == chains[id][0]
      requires ArenaOk(nodes, -1, [], done, owned, -1) && id !in done
      ensures ArenaOk(nodes', -1, [], done', owned', -1)
      ensures id in done' && done' - {id} == done && |done'[id]| > 0
      ensures newHead == done'[id][0] && newTail == done'[id][|done'[id]| - 1]
      ensures Locations(nodes', done') == Locations(nodes, done)[id := Contents()[id]]
    {
      hide ArenaOk, TableRep, SlotsOk, PartlyFreed, Spots;
      ghost var chain := chains[id];
      ChainNodes(arena, free, stack, chains, owner, id);
      nodes', done', owned' := nodes, done, owned;
      newHead, newTail := -1, -1;
      ghost var m := 0;
      var l := head;
      while l >= 0
        invariant m <= |chain|
        invariant l == if m < |chain| then chain[m] else -1
        invariant ArenaOk(nodes', -1, [], done', owned', -1)
        invariant m == 0 ==> nodes' == nodes && done' == done && newTail == -1
        invariant m > 0 ==> id in done' && done' - {id} == done && |done'[id]| == m
        invariant m > 0 ==> newHead == done'[id][0] && newTail == done'[id][m - 1]
        invariant m > 0 ==> Locations(nodes', done') == Locations(nodes, done)[id := Spots(arena, chain[..m])]
        decreases |chain| - m
      {
        var ni := |nodes'|;
        var spot := arena[l].spot;
        SpotsNext(arena, chain, m);
        if newTail < 0 {
          PackFirst(nodes', done', owned', id, spot);
          nodes', newHead := nodes' + [Node(spot, -1)], ni;
          owned', done' := owned' + [InChain(id, 0)], done'[id := [ni]];
        } else {
          PackNext(nodes', done', owned', id, spot, newTail);
          ghost var base, was, now := Locations(nodes, done), Spots(arena, chain[..m]), Spots(arena, chain[..m + 1]);
          assert base[id := was][id := now] == base[id := now];
          nodes' := nodes' + [Node(spot, -1)];
          nodes' := nodes'[newTail := nodes'[newTail].(next := ni)];
          owned', done' := owned' + [InChain(id, |done'[id]|)], done'[id := done'[id] + [ni]];
        }
        newTail := ni;
        l := arena[l].next;
        m := m + 1;
      }
      assert chain[..m] == chain;
    }

    /** Rebuild the arena to hold only chained nodes, dropping the free list. */
    method Compact()
      requires Valid()
      modifies this`slots, this`arena, this`free, this`freeLen, this`chains, this`stack, this`owner
      ensures Valid() && free == -1 && freeLen == 0
      ensures Contents() == old(Contents())
      ensures |slots| == |old(slots)|
      ensures forall j :: 0 <= j < |slots| ==> slots[j].id == old(slots)[j].id && (slots[j].head > 0 <==> old(slots)[j].head > 0)
    {
      hide ArenaOk, TableRep, SlotsOk, Repacked;
      ghost var done: Chains, owned: seq<Owner> := map[], [];
      var nodes: seq<Node> := [];
      var was := slots;
      NothingPacked(slots, chains);
      EmptyArenaOk();
      var i := 0;
      while i < |was|
        invariant 0 <= i <= |was| == |slots|
        invariant Repacked(was, slots, i, done)
        invariant ArenaOk(nodes, -1, [], done, owned, -1)
        invariant forall id :: id in done ==> id in Contents() && Locations(nodes, done)[id] == Contents()[id]
        modifies this`slots
      {
        if was[i].head <= 0 {
          SkipPacked(was, slots, i, done);
        } else {
          TailIsNewest(arena, free, stack, owner, was, chains, i);
          NotYetPacked(hash, was, liveCount, tombs, slots, i, done);
          var newHead, newTail;
          ghost var done';
          nodes, newHead, newTail, done', owned := CopyChain(nodes, was[i].head - 1, was[i].id, done, owned);
          PackSlot(was, slots, i, done, done', newHead, newTail);
          done := done';
          slots := slots[i := Slot(was[i].id, newHead + 1, newTail + 1)];
        }
        i := i + 1;
      }
      AllPacked(hash, was, liveCount, tombs, slots, chains, done);
      arena, free, freeLen := nodes, -1, 0;
      chains, stack, owner := done, [], owned;
    }

    /** Drop the trace in slot `i` if its newest location is older than `minGen`. */
    method SweepSlot(i: nat, minGen: nat) returns (ghost gone: set<TraceId>)
      requires Valid()
      requires i < |slots|
      modifies this`slots, this`arena, this`free, this`freeLen, this`liveCount, this`tombs, this`chains, this`stack, this`owner
      ensures Valid() && |slots| == old(|slots|)
      ensures Contents() == old(Contents()) - gone
      ensures forall id :: id in gone ==> id in old(Contents()) && old(Contents())[id] != [] && NewestGen(old(Contents())[id]) < minGen
      ensures forall j :: DeadAt(slots, Contents(), j, minGen) ==> j != i && DeadAt(old(slots), old(Contents()), j, minGen)
    {
      hide TableRep, SlotsOk, ArenaOk, NewestGen;
      gone := {};
      if slots[i].head > 0 {
        TailIsNewest(arena, free, stack, owner, slots, chains, i);
        if arena[slots[i].tail - 1].spot.gen < minGen {
          gone := {slots[i].id};
          BuriedNotDead(slots, Contents(), i, minGen);
          Bury(i);
        }
      }
    }

    /**
     Examine up to `n` slots from the rotating cursor and drop every trace among
     them whose newest location is older than `minGen`. `arenaCap` is the arena's
     allocated capacity, on which compaction depends.
     */
    method Sweep(n: nat, minGen: nat, arenaCap: nat) returns (ghost swept: set<TraceId>)
      requires Valid()
      modifies this
      ensures Valid() && |slots| == old(|slots|)
      ensures Contents() == old(Contents()) - swept
      ensures forall id :: id in swept ==> id in old(Contents()) && old(Contents())[id] != [] && NewestGen(old(Contents())[id]) < minGen
      ensures forall k :: 0 <= k < n && k < |slots| ==> !DeadAt(slots, Contents(), Window(old(cursor), k, |slots|), minGen)
      ensures forall j :: DeadAt(slots, Contents(), j, minGen) ==> DeadAt(old(slots), old(Contents()), j, minGen)
      ensures cursor == Window(old(cursor), n, |slots|)
      ensures |arena| >= ARENA_COMPACT_FLOOR && 0 < freeLen < |arena| ==> (arenaCap - (|arena| - freeLen)) * 4 <= |arena| - freeLen
    {
      hide TableRep, SlotsOk, ArenaOk, NewestGen, DeadAt, Window;
      swept := {};
      var total := |slots|;
      var limit := if n < total then n else total;
      var k := 0;
      while k < limit
        invariant 0 <= k <= limit
        invariant Valid() && |slots| == total && cursor == old(cursor)
        invariant Contents() == old(Contents()) - swept
        invariant forall id :: id in swept ==> id in old(Contents()) && old(Contents())[id] != [] && NewestGen(old(Contents())[id]) < minGen
        invariant forall k' :: 0 <= k' < k ==> !DeadAt(slots, Contents(), Window(cursor, k', total), minGen)
        invariant forall j :: DeadAt(slots, Contents(), j, minGen) ==> DeadAt(old(slots), old(Contents()), j, minGen)
      {
        ghost var gone := SweepSlot(Window(cursor, k, total), minGen);
        swept := swept + gone;
        k := k + 1;
      }
      cursor := Window(cursor, n, total);
      var needed := |arena| - freeLen;
      if |arena| >= ARENA_COMPACT_FLOOR && needed > 0 && (arenaCap - needed) * 4 > needed {
        ghost var was := slots;
        Compact();
        DeadStaysDead(was, slots, Contents(), minGen);
      }
    }
  }

  /** The first `w` slots from the cursor hold no dead trace. */
  ghost predicate CleanWindow(x: Index, cursor: nat, w: nat, minGen: nat)
    requires |x.slots| > 0
    reads x
  {
    forall k :: 0 <= k < w && k < |x.slots| ==> !DeadAt(x.slots, x.Contents(), Window(cursor, k, |x.slots|), minGen)
  }

  /** The index's own cursor has moved on from `cursor` by `w` slots. */
  ghost predicate MovedOn(x: Index, cursor: nat, w: nat)
    requires |x.slots| > 0
    reads x
  {
    forall k: nat :: Window(x.cursor, k, |x.slots|) == Window(cursor, w + k, |x.slots|)
  }

  /** Only traces whose newest location is older than `minGen` are gone. */
  ghost predicate OnlyDeadGone(was: map<TraceId, seq<Spot>>, now: map<TraceId, seq<Spot>>, minGen: nat) {
    && (forall id :: id in now ==> id in was && now[id] == was[id])
    && (forall id :: id in was && id !in now ==> was[id] != [] && NewestGen(was[id]) < minGen)
  }

  lemma OnlyDeadGoneMore(a: map<TraceId, seq<Spot>>, b: map<TraceId, seq<Spot>>, c: map<TraceId, seq<Spot>>, minGen: nat)
    requires OnlyDeadGone(a, b, minGen) && OnlyDeadGone(b, c, minGen)
    ensures OnlyDeadGone(a, c, minGen)
  {
    hide NewestGen;
  }

  /** One more sweep widens the clean window by its `n` slots. */
  method SweepOnward(x: Index, ghost cursor: nat, ghost w: nat, n: nat, minGen: nat, arenaCap: nat)
    requires x.Valid() && CleanWindow(x, cursor, w, minGen) && MovedOn(x, cursor, w)
    modifies x
    ensures x.Valid() && |x.slots| == old(|x.slots|)
    ensures CleanWindow(x, cursor, w + n, minGen) && MovedOn(x, cursor, w + n)
    ensures OnlyDeadGone(old(x.Contents()), x.Contents(), minGen)
  {
    hide Index.Valid, DeadAt, NewestGen, Window;
    ghost var swept := x.Sweep(n, minGen, arenaCap);
    forall k | 0 <= k < w + n && k < |x.slots|
      ensures !DeadAt(x.slots, x.Contents(), Window(cursor, k, |x.slots|), minGen)
    {
      if k >= w {
        assert Window(old(x.cursor), k - w, |x.slots|) == Window(cursor, k, |x.slots|);
      }
    }
    forall k: nat
      ensures Window(x.cursor, k, |x.slots|) == Window(cursor, w + n + k, |x.slots|)
    {
      WindowMoves(old(x.cursor), n, k, |x.slots|);
      assert Window(old(x.cursor), n + k, |x.slots|) == Window(cursor, w + (n + k), |x.slots|);
    }
  }

  /**
   The cursor rotates: as many sweeps of `n` slots as cover the table drop
   exactly the traces whose newest location is older than `minGen`.
   */
  method SweepRound(x: Index, n: nat, rounds: nat, minGen: nat, arenaCap: nat)
    requires x.Valid() && |x.slots| <= n * rounds
    modifies x
    ensures x.Valid()
    ensures forall id :: id in x.Contents() <==> id in old(x.Contents()) && NewestOf(old(x.Contents()), id) >= minGen
    ensures forall id :: id in x.Contents() ==> x.Contents()[id] == old(x.Contents())[id]
  {
    hide Index.Valid, Index.Contents, CleanWindow, MovedOn, OnlyDeadGone;
    ghost var cursor, was := x.cursor, x.Contents();
    ghost var w := 0;
    var r := 0;
    Unswept(x, minGen);
    while r < rounds
      invariant r <= rounds && w == n * r
      invariant x.Valid() && |x.slots| == old(|x.slots|) > 0
      invariant CleanWindow(x, cursor, w, minGen) && MovedOn(x, cursor, w)
      invariant OnlyDeadGone(was, x.Contents(), minGen)
    {
      ghost var before := x.Contents();
      SweepOnward(x, cursor, w, n, minGen, arenaCap);
      OnlyDeadGoneMore(was, before, x.Contents(), minGen);
      assert n * (r + 1) == n * r + n;
      r, w := r + 1, w + n;
    }
    forall id | id in x.Contents()
      ensures NewestOf(x.Contents(), id) >= minGen
    {
      CleanTable(x, cursor, w, minGen, id);
    }
    ExactlyDeadGone(was, x.Contents(), minGen);
  }

  lemma ExactlyDeadGone(was: map<TraceId, seq<Spot>>, now: map<TraceId, seq<Spot>>, minGen: nat)
    requires OnlyDeadGone(was, now, minGen)
    requires forall id :: id in now ==> NewestOf(now, id) >= minGen
    ensures forall id :: id in now <==> id in was && NewestOf(was, id) >= minGen
    ensures forall id :: id in now ==> now[id] == was[id]
  {
  }

  lemma Unswept(x: Index, minGen: nat)
    requires x.Valid()
    ensures |x.slots| > 0
    ensures CleanWindow(x, x.cursor, 0, minGen) && MovedOn(x, x.cursor, 0) && OnlyDeadGone(x.Contents(), x.Contents(), minGen)
  {
    hide Window, Index.Contents;
  }

  /** The generation of a trace's newest location. */
  ghost function NewestOf(contents: map<TraceId, seq<Spot>>, id: TraceId): (g: nat)
    requires id in contents
  {
    if contents[id] == [] then 0 else NewestGen(contents[id])
  }

  /** A clean window as wide as the table leaves no dead trace. */
  lemma CleanTable(x: Index, cursor: nat, w: nat, minGen: nat, id: TraceId)
    requires x.Valid() && |x.slots| <= w && CleanWindow(x, cursor, w, minGen) && id in x.Contents()
    ensures x.Contents()[id] != [] && NewestOf(x.Contents(), id) >= minGen
  {
    hide TableRep, ArenaOk, NewestGen, DeadAt;
    var i :| 0 <= i < |x.slots| && View(x.slots)[i] == Full(id);
    TailIsNewest(x.arena, x.free, x.stack, x.owner, x.slots, x.chains, i);
    FullPassLeavesNoneDead(x.slots, x.chains, x.Contents(), cursor, minGen, id);
  }
}
