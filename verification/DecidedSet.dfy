/**
 The decided set: an open-addressing table whose slots hold sequence numbers
 into an insertion-ordered ring, rebased whenever the ring drops its dead
 prefix. The specification is the plain list of live entries.
 */
module DecidedSet {
  import opened Types
  import opened Probing

  const INITIAL_SLOTS: nat := 1024

  datatype Entry = Entry(id: TraceId, deadline: int)

  /** A table slot. The source packs these into one word: 0, all ones, and sequence number + 1. */
  datatype Ref = Vacant | Buried | Live(seqNo: nat)

  predicate Holds(entries: seq<Entry>, id: TraceId) {
    exists i :: 0 <= i < |entries| && entries[i].id == id
  }

  /** Length of the longest prefix whose deadlines have all passed. */
  function ExpiredPrefix(entries: seq<Entry>, now: int): (n: nat)
    ensures n <= |entries|
    ensures forall i :: 0 <= i < n ==> entries[i].deadline <= now
    ensures n < |entries| ==> entries[n].deadline > now
  {
    if entries == [] || entries[0].deadline > now then 0 else 1 + ExpiredPrefix(entries[1..], now)
  }

  function CellOf(r: Ref, ring: seq<Entry>, baseSeq: nat): (c: Cell<TraceId>)
    ensures c.Empty? <==> r.Vacant?
  {
    match r
    case Vacant => Empty
    case Buried => Tomb
    case Live(q) => if baseSeq <= q < baseSeq + |ring| then Full(ring[q - baseSeq].id) else Tomb
  }

  /** The table as linear probing sees it. */
  function View(slots: seq<Ref>, ring: seq<Entry>, baseSeq: nat): (cells: seq<Cell<TraceId>>)
    ensures |cells| == |slots|
    ensures forall j :: 0 <= j < |slots| ==> cells[j] == CellOf(slots[j], ring, baseSeq)
  {
    seq(|slots|, j requires 0 <= j < |slots| => CellOf(slots[j], ring, baseSeq))
  }

  /** Slots refer exactly to the ring positions in `[lo, hi)`, each through `place`. */
  ghost predicate Linked(slots: seq<Ref>, ring: seq<Entry>, baseSeq: nat, place: seq<nat>, lo: nat, hi: nat) {
    && lo <= hi <= |ring| == |place|
    && (forall j :: 0 <= j < |slots| && slots[j].Live? ==> baseSeq + lo <= slots[j].seqNo < baseSeq + hi)
    && (forall i :: lo <= i < hi ==> place[i] < |slots| && slots[place[i]] == Live(baseSeq + i))
  }

  /** Membership in the list is presence of a full cell. */
  lemma LinkedMembership(slots: seq<Ref>, ring: seq<Entry>, baseSeq: nat, place: seq<nat>, lo: nat, hi: nat, id: TraceId)
    requires Linked(slots, ring, baseSeq, place, lo, hi)
    ensures Full(id) in View(slots, ring, baseSeq) <==> Holds(ring[lo..hi], id)
  {
    var cells := View(slots, ring, baseSeq);
    if Full(id) in cells {
      var j :| 0 <= j < |cells| && cells[j] == Full(id);
      assert ring[lo..hi][slots[j].seqNo - baseSeq - lo].id == id;
    }
    if Holds(ring[lo..hi], id) {
      var i :| 0 <= i < |ring[lo..hi]| && ring[lo..hi][i].id == id;
      assert cells[place[lo + i]] == Full(id);
    }
  }

  /** Dropping the dead prefix and rebasing leaves every cell as it was. */
  lemma RebaseKeepsView(slots: seq<Ref>, ring: seq<Entry>, baseSeq: nat, place: seq<nat>, lo: nat)
    requires Linked(slots, ring, baseSeq, place, lo, |ring|)
    ensures View(slots, ring[lo..], baseSeq + lo) == View(slots, ring, baseSeq)
    ensures Linked(slots, ring[lo..], baseSeq + lo, place[lo..], 0, |ring| - lo)
  {
  }

  /** Writing a fresh reference into slot `j` changes that one cell. */
  lemma LinkKeepsRest(slots: seq<Ref>, ring: seq<Entry>, baseSeq: nat, place: seq<nat>, lo: nat, hi: nat, j: nat)
    requires Linked(slots, ring, baseSeq, place, lo, hi)
    requires hi < |ring|
    requires j < |slots| && !slots[j].Live?
    ensures Linked(slots[j := Live(baseSeq + hi)], ring, baseSeq, place[hi := j], lo, hi + 1)
    ensures View(slots[j := Live(baseSeq + hi)], ring, baseSeq) == View(slots, ring, baseSeq)[j := Full(ring[hi].id)]
  {
  }

  /** Extending the ring does not disturb references into its present part. */
  lemma GrowKeepsView(slots: seq<Ref>, ring: seq<Entry>, baseSeq: nat, place: seq<nat>, lo: nat, e: Entry)
    requires Linked(slots, ring, baseSeq, place, lo, |ring|)
    ensures View(slots, ring + [e], baseSeq) == View(slots, ring, baseSeq)
    ensures Linked(slots, ring + [e], baseSeq, place + [0], lo, |ring|)
  {
  }

  /** Burying the oldest entry's slot changes that one cell. */
  lemma BuryKeepsRest(slots: seq<Ref>, ring: seq<Entry>, baseSeq: nat, place: seq<nat>, lo: nat, hi: nat)
    requires Linked(slots, ring, baseSeq, place, lo, hi)
    requires Distinct(View(slots, ring, baseSeq))
    requires lo < hi
    ensures Linked(slots[place[lo] := Buried], ring, baseSeq, place, lo + 1, hi)
    ensures View(slots[place[lo] := Buried], ring, baseSeq) == View(slots, ring, baseSeq)[place[lo] := Tomb]
  {
    var cells := View(slots, ring, baseSeq);
    forall j | 0 <= j < |slots| && j != place[lo]
      ensures slots[j] != Live(baseSeq + lo)
    {
      assert cells[j] != cells[place[lo]];
    }
  }

  /** The table indexes ring positions `[lo, hi)`, with the counters in step. */
  ghost predicate Indexes(hash: (TraceId, nat) -> nat, slots: seq<Ref>, ring: seq<Entry>, baseSeq: nat,
                          tombs: nat, place: seq<nat>, lo: nat, hi: nat)
  {
    && |slots| >= INITIAL_SLOTS
    && Linked(slots, ring, baseSeq, place, lo, hi)
    && TableOk(hash, View(slots, ring, baseSeq))
    && Fulls(View(slots, ring, baseSeq)) == hi - lo
    && Tombs(View(slots, ring, baseSeq)) == tombs
  }

  lemma EmptyTableIndexes(hash: (TraceId, nat) -> nat, size: nat, ring: seq<Entry>, baseSeq: nat, place: seq<nat>, lo: nat)
    requires size >= INITIAL_SLOTS && lo <= |ring| == |place|
    ensures Indexes(hash, seq(size, _ => Vacant), ring, baseSeq, 0, place, lo, lo)
  {
    CountsOfEmpty(View(seq(size, _ => Vacant), ring, baseSeq));
  }

  /** Inserting ring position `hi` where its id belongs, burying nothing. */
  lemma InsertStep(hash: (TraceId, nat) -> nat, slots: seq<Ref>, ring: seq<Entry>, baseSeq: nat,
                   tombs: nat, place: seq<nat>, lo: nat, hi: nat, j: nat)
    requires Indexes(hash, slots, ring, baseSeq, tombs, place, lo, hi)
    requires hi < |ring|
    requires Insertable(hash, View(slots, ring, baseSeq), ring[hi].id, j)
    ensures j < |slots| && (slots[j].Buried? ==> tombs > 0) && hi < |place|
    ensures Indexes(hash, slots[j := Live(baseSeq + hi)], ring, baseSeq,
                    if slots[j].Buried? then tombs - 1 else tombs, place[hi := j], lo, hi + 1)
  {
    var cells := View(slots, ring, baseSeq);
    InsertKeepsTable(hash, cells, ring[hi].id, j);
    CountsAfterUpdate(cells, j, Full(ring[hi].id));
    LinkKeepsRest(slots, ring, baseSeq, place, lo, hi, j);
  }

  /** Recording a fresh entry: the ring grows by it and its slot refers to it. */
  lemma AppendStep(hash: (TraceId, nat) -> nat, slots: seq<Ref>, ring: seq<Entry>, baseSeq: nat,
                   tombs: nat, place: seq<nat>, lo: nat, e: Entry, j: nat)
    requires Indexes(hash, slots, ring, baseSeq, tombs, place, lo, |ring|)
    requires Insertable(hash, View(slots, ring, baseSeq), e.id, j)
    ensures j < |slots| && (slots[j].Buried? ==> tombs > 0)
    ensures Indexes(hash, slots[j := Live(baseSeq + |ring|)], ring + [e], baseSeq,
                    if slots[j].Buried? then tombs - 1 else tombs, place + [j], lo, |ring| + 1)
  {
    GrowKeepsView(slots, ring, baseSeq, place, lo, e);
    InsertStep(hash, slots, ring + [e], baseSeq, tombs, place + [0], lo, |ring|, j);
    assert (place + [0])[|ring| := j] == place + [j];
  }

  /** Dropping the dead prefix of the ring. */
  lemma RebaseStep(hash: (TraceId, nat) -> nat, slots: seq<Ref>, ring: seq<Entry>, baseSeq: nat,
                   tombs: nat, place: seq<nat>, lo: nat)
    requires Indexes(hash, slots, ring, baseSeq, tombs, place, lo, |ring|)
    ensures lo <= |ring| == |place|
    ensures Indexes(hash, slots, ring[lo..], baseSeq + lo, tombs, place[lo..], 0, |ring| - lo)
  {
    RebaseKeepsView(slots, ring, baseSeq, place, lo);
  }

  /** Burying the oldest entry's slot. */
  lemma BuryStep(hash: (TraceId, nat) -> nat, slots: seq<Ref>, ring: seq<Entry>, baseSeq: nat,
                 tombs: nat, place: seq<nat>, lo: nat, hi: nat)
    requires Indexes(hash, slots, ring, baseSeq, tombs, place, lo, hi)
    requires lo < hi
    ensures lo < |place| && place[lo] < |slots|
    ensures Indexes(hash, slots[place[lo] := Buried], ring, baseSeq, tombs + 1, place, lo + 1, hi)
  {
    var cells := View(slots, ring, baseSeq);
    assert cells[place[lo]] == Full(ring[lo].id);
    EraseKeepsTable(hash, cells, place[lo]);
    CountsAfterUpdate(cells, place[lo], Tomb);
    BuryKeepsRest(slots, ring, baseSeq, place, lo, hi);
  }

  /** The slot found for the oldest id is the oldest entry's own. */
  lemma OldestSlot(hash: (TraceId, nat) -> nat, slots: seq<Ref>, ring: seq<Entry>, baseSeq: nat,
                   tombs: nat, place: seq<nat>, lo: nat, hi: nat, i: nat)
    requires Indexes(hash, slots, ring, baseSeq, tombs, place, lo, hi)
    requires lo < hi <= |ring| && i < |slots| && View(slots, ring, baseSeq)[i] == Full(ring[lo].id)
    ensures lo < |place| && i == place[lo]
  {
    assert View(slots, ring, baseSeq)[place[lo]] == Full(ring[lo].id);
  }

  /** No id occurs twice among the indexed entries. */
  lemma IdsDistinct(hash: (TraceId, nat) -> nat, slots: seq<Ref>, ring: seq<Entry>, baseSeq: nat,
                    tombs: nat, place: seq<nat>, lo: nat, hi: nat)
    requires Indexes(hash, slots, ring, baseSeq, tombs, place, lo, hi)
    ensures lo <= hi <= |ring| == |place|
    ensures forall b :: lo <= b < hi ==> !Holds(ring[lo..b], ring[b].id)
  {
    var cells := View(slots, ring, baseSeq);
    forall a, b | lo <= a < b < hi
      ensures ring[a].id != ring[b].id
    {
      assert cells[place[a]] == Full(ring[a].id) && cells[place[b]] == Full(ring[b].id);
    }
  }

  class DecidedSet {
    const hash: (TraceId, nat) -> nat
    var slots: seq<Ref>
    var ring: seq<Entry>
    var head: nat
    var baseSeq: nat
    var tombs: nat
    ghost var place: seq<nat>

    ghost function Cells(): (cells: seq<Cell<TraceId>>)
      reads this
    {
      View(slots, ring, baseSeq)
    }

    ghost predicate Indexed(hi: nat)
      reads this
    {
      Indexes(hash, slots, ring, baseSeq, tombs, place, head, hi)
    }

    ghost predicate Valid()
      reads this
    {
      && head <= |ring|
      && |slots| >= INITIAL_SLOTS
      && Indexed(|ring|)
      && (|ring| - head + tombs) * 4 < 3 * |slots| + 4
    }

    /** The live entries, oldest first. */
    ghost function Contents(): (entries: seq<Entry>)
      requires head <= |ring|
      reads this
    {
      ring[head..]
    }

    constructor (hash: (TraceId, nat) -> nat)
      ensures Valid() && Contents() == []
    {
      this.hash := hash;
      slots := seq(INITIAL_SLOTS, _ => Vacant);
      ring, head, baseSeq, tombs, place := [], 0, 0, 0, [];
      new;
      EmptyTableIndexes(hash, INITIAL_SLOTS, ring, baseSeq, place, head);
    }

    /** The load factor keeps an empty slot in the table, so every probe ends. */
    lemma EmptySlotPresent() returns (j: nat)
      requires Valid()
      ensures j < |slots| && slots[j].Vacant?
    {
      j := EmptyExists(Cells());
    }

    method FindSlot(id: TraceId, ghost hi: nat) returns (i: nat, found: bool)
      requires Indexed(hi)
      requires hi - head + tombs < |slots|
      ensures i < |slots|
      ensures found <==> Holds(ring[head..hi], id)
      ensures found ==> Cells()[i] == Full(id)
      ensures !found ==> Insertable(hash, Cells(), id, i)
    {
      LinkedMembership(slots, ring, baseSeq, place, head, hi, id);
      ghost var cells := Cells();
      var n := |slots|;
      var start := Home(hash, id, n);
      var tomb, haveTomb := 0, false;
      ghost var tombAt := 0;
      ghost var e := EmptyExists(cells);
      var p := 0;
      while p < n
        invariant 0 <= p <= Distance(start, e, n)
        invariant forall q :: 0 <= q < p ==> OnPath(hash, cells, id, q) != Full(id) && !OnPath(hash, cells, id, q).Empty?
        invariant !haveTomb ==> forall q :: 0 <= q < p ==> OnPath(hash, cells, id, q).Full?
        invariant haveTomb ==> tombAt < p && tomb == ProbeAt(start, tombAt, n) && cells[tomb].Tomb?
        invariant haveTomb ==> forall q :: 0 <= q < tombAt ==> OnPath(hash, cells, id, q).Full?
      {
        var j := ProbeAt(start, p, n);
        assert cells[j] == OnPath(hash, cells, id, p);
        if slots[j].Vacant? {
          ProbeEndProvesAbsence(hash, cells, id, p);
          i, found := if haveTomb then tomb else j, false;
          return;
        } else if slots[j].Buried? {
          if !haveTomb {
            tomb, haveTomb, tombAt := j, true, p;
          }
        } else if ring[slots[j].seqNo - baseSeq].id == id {
          return j, true;
        }
        p := p + 1;
      }
      // The load factor rules this exit out: the probe meets empty slot e first.
      assert false;
    }

    /** Is `id` currently decided? */
    method Has(id: TraceId) returns (found: bool)
      requires Valid()
      ensures found <==> Holds(Contents(), id)
    {
      assert ring[head..|ring|] == ring[head..];
      var i;
      i, found := FindSlot(id, |ring|);
    }

    /** Rebuild the table without tombstones; no entry moves. */
    method Rehash()
      requires Valid()
      modifies this`slots, this`tombs, this`place
      ensures Valid()
      ensures tombs == 0 && (|ring| - head) * 4 < 3 * |slots|
      ensures |slots| == INITIAL_SLOTS || 3 * |slots| <= 8 * (|ring| - head)
    {
      hide Indexes, Insertable, Holds;
      IdsDistinct(hash, slots, ring, baseSeq, tombs, place, head, |ring|);
      var size := INITIAL_SLOTS;
      while 3 * size <= 4 * (|ring| - head)
        invariant size >= INITIAL_SLOTS
        invariant size == INITIAL_SLOTS || 3 * size <= 8 * (|ring| - head)
      {
        size := 2 * size;
      }
      EmptyTableIndexes(hash, size, ring, baseSeq, place, head);
      slots := seq(size, _ => Vacant);
      tombs := 0;
      var i := head;
      while i < |ring|
        invariant head <= i <= |ring|
        invariant |slots| == size && tombs == 0
        invariant Indexed(i)
      {
        var j, found := FindSlot(ring[i].id, i);
        InsertStep(hash, slots, ring, baseSeq, tombs, place, head, i, j);
        slots := slots[j := Live(baseSeq + i)];
        place := place[i := j];
        i := i + 1;
      }
    }

    /** Record `id` as decided until `deadline`; false, and no change, if it already is. */
    method Mark(id: TraceId, deadline: int) returns (isNew: bool)
      requires Valid()
      modifies this
      ensures Valid()
      ensures isNew <==> !Holds(old(Contents()), id)
      ensures Contents() == if isNew then old(Contents()) + [Entry(id, deadline)] else old(Contents())
    {
      hide Indexes, Insertable, Holds;
      if (|ring| - head + tombs) * 4 >= 3 * |slots| {
        Rehash();
      }
      assert ring[head..|ring|] == ring[head..];
      var i, found := FindSlot(id, |ring|);
      if found {
        return false;
      }
      AppendStep(hash, slots, ring, baseSeq, tombs, place, head, Entry(id, deadline), i);
      if slots[i].Buried? {
        tombs := tombs - 1;
      }
      slots := slots[i := Live(baseSeq + |ring|)];
      ring := ring + [Entry(id, deadline)];
      place := place + [i];
      isNew := true;
    }

    /** Bury the longest expired prefix. */
    method PopExpired(now: int) returns (n: nat)
      requires Valid()
      modifies this
      ensures Valid()
      ensures n == ExpiredPrefix(old(Contents()), now)
      ensures Contents() == old(Contents())[n..]
    {
      hide Indexes, Insertable, ExpiredPrefix;
      n := 0;
      while head < |ring| && ring[head].deadline <= now
        invariant Valid()
        invariant ring == old(ring) && baseSeq == old(baseSeq)
        invariant head == old(head) + n
        invariant forall i :: old(head) <= i < head ==> ring[i].deadline <= now
        decreases |ring| - head
      {
        assert ring[head..][0].id == ring[head].id;
        assert ring[head..|ring|] == ring[head..];
        var i, found := FindSlot(ring[head].id, |ring|);
        OldestSlot(hash, slots, ring, baseSeq, tombs, place, head, |ring|, i);
        BuryStep(hash, slots, ring, baseSeq, tombs, place, head, |ring|);
        if found {
          slots := slots[i := Buried];
          tombs := tombs + 1;
        }
        head := head + 1;
        n := n + 1;
      }
      ExpiredPrefixIsLongest(old(Contents()), now, n);
    }

    /** Drop the longest expired prefix, and nothing else; the ring stays within twice what is live. */
    method Evict(now: int) returns (n: nat)
      requires Valid()
      modifies this
      ensures Valid()
      ensures n == ExpiredPrefix(old(Contents()), now)
      ensures Contents() == old(Contents())[n..]
      ensures |ring| <= 2 * |Contents()|
    {
      hide Indexes, ExpiredPrefix;
      n := PopExpired(now);
      Compact();
    }

    /** The ring drops its dead prefix once that prefix dominates. */
    method Compact()
      requires Valid()
      modifies this
      ensures Valid()
      ensures Contents() == old(Contents())
      ensures |ring| <= 2 * |Contents()| && baseSeq + head == old(baseSeq + head)
    {
      hide Indexes;
      RebaseStep(hash, slots, ring, baseSeq, tombs, place, head);
      if head == |ring| {
        assert ring[head..] == [];
        place := place[head..];
        baseSeq := baseSeq + head;
        ring := [];
        head := 0;
      } else if 2 * head > |ring| {
        place := place[head..];
        baseSeq := baseSeq + head;
        ring := ring[head..];
        head := 0;
      }
    }
  }

  /** The prefix a walk stops at is the longest expired one. */
  lemma {:induction false} ExpiredPrefixIsLongest(entries: seq<Entry>, now: int, n: nat)
    requires n <= |entries|
    requires forall i :: 0 <= i < n ==> entries[i].deadline <= now
    requires n < |entries| ==> entries[n].deadline > now
    ensures ExpiredPrefix(entries, now) == n
  {
    if n > 0 {
      ExpiredPrefixIsLongest(entries[1..], now, n - 1);
    }
  }

  // ------------------------------------------- when eviction is exact

  ghost predicate DeadlinesSorted(entries: seq<Entry>) {
    forall i, j :: 0 <= i < j < |entries| ==> entries[i].deadline <= entries[j].deadline
  }

  /** Evicting at `now` leaves no entry whose deadline has passed. */
  ghost predicate EvictsAllExpired(entries: seq<Entry>, now: int) {
    forall i :: ExpiredPrefix(entries, now) <= i < |entries| ==> entries[i].deadline > now
  }

  /**
   Eviction stops at the first live entry. It removes exactly the expired entries
   at every instant if and only if deadlines are in insertion order, which
   stamps behind the clock can break.
   */
  lemma EvictionExactIffSorted(entries: seq<Entry>)
    ensures (forall now :: EvictsAllExpired(entries, now)) <==> DeadlinesSorted(entries)
  {
    if forall now :: EvictsAllExpired(entries, now) {
      forall i, j | 0 <= i < j < |entries|
        ensures entries[i].deadline <= entries[j].deadline
      {
        assert EvictsAllExpired(entries, entries[j].deadline);
      }
    }
  }
}
