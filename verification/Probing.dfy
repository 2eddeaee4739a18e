/**
 Linear probing over an open-addressing table, independent of what a slot
 stores. The buffer index and the decided set both look through their own slot
 representation at a sequence of cells; this module proves once that
 a probe which respects the order is exact, for every hash function.
 */
module Probing {

  datatype Cell<K> = Empty | Tomb | Full(key: K)

  /** The slot `p` steps after `start` in a table of `n` slots, wrapping. */
  function ProbeAt(start: nat, p: nat, n: nat): (j: nat)
    requires start < n && p < n
    ensures j < n
  {
    if start + p < n then start + p else start + p - n
  }

  /** How many steps a probe from `start` takes to reach slot `j`. */
  function Distance(start: nat, j: nat, n: nat): (p: nat)
    requires start < n && j < n
    ensures p < n && ProbeAt(start, p, n) == j
  {
    if start <= j then j - start else j + n - start
  }

  /** The slot at which the probe for `k` begins. The hash is arbitrary. */
  function Home<K>(hash: (K, nat) -> nat, k: K, n: nat): (s: nat)
    requires n > 0
    ensures s < n
  {
    hash(k, n) % n
  }

  /** The `p`-th cell on the probe path of `k`. */
  function OnPath<K>(hash: (K, nat) -> nat, cells: seq<Cell<K>>, k: K, p: nat): (c: Cell<K>)
    requires p < |cells|
    ensures c in cells
  {
    cells[ProbeAt(Home(hash, k, |cells|), p, |cells|)]
  }

  ghost predicate Distinct<K(!new)>(cells: seq<Cell<K>>) {
    forall i, j :: 0 <= i < j < |cells| && cells[i].Full? ==> cells[i] != cells[j]
  }

  /** No empty cell stands between a key's home slot and the slot holding it. */
  ghost predicate Unbroken<K(!new)>(hash: (K, nat) -> nat, cells: seq<Cell<K>>) {
    forall j, p :: 0 <= j < |cells| && cells[j].Full?
      && 0 <= p < Distance(Home(hash, cells[j].key, |cells|), j, |cells|)
      ==> !OnPath(hash, cells, cells[j].key, p).Empty?
  }

  ghost predicate TableOk<K(!new)>(hash: (K, nat) -> nat, cells: seq<Cell<K>>) {
    |cells| > 0 && Distinct(cells) && Unbroken(hash, cells)
  }

  /** Slot `i` is where an absent `k` belongs: the first non-full cell on its path. */
  ghost predicate Insertable<K(!new)>(hash: (K, nat) -> nat, cells: seq<Cell<K>>, k: K, i: nat) {
    && i < |cells|
    && !cells[i].Full?
    && Full(k) !in cells
    && (forall p :: 0 <= p < Distance(Home(hash, k, |cells|), i, |cells|) ==> OnPath(hash, cells, k, p).Full?)
  }

  function Fulls<K>(cells: seq<Cell<K>>): (n: nat)
    ensures n <= |cells|
  {
    if cells == [] then 0 else (if cells[|cells| - 1].Full? then 1 else 0) + Fulls(cells[..|cells| - 1])
  }

  function Tombs<K>(cells: seq<Cell<K>>): (n: nat)
    ensures n <= |cells|
  {
    if cells == [] then 0 else (if cells[|cells| - 1].Tomb? then 1 else 0) + Tombs(cells[..|cells| - 1])
  }

  lemma {:induction false} CountsAfterUpdate<K>(cells: seq<Cell<K>>, i: nat, c: Cell<K>)
    requires i < |cells|
    ensures Fulls(cells[i := c]) == Fulls(cells) - (if cells[i].Full? then 1 else 0) + (if c.Full? then 1 else 0)
    ensures Tombs(cells[i := c]) == Tombs(cells) - (if cells[i].Tomb? then 1 else 0) + (if c.Tomb? then 1 else 0)
  {
    var m := |cells| - 1;
    if i == m {
      assert cells[i := c][..m] == cells[..m];
    } else {
      assert cells[i := c][..m] == cells[..m][i := c];
      CountsAfterUpdate(cells[..m], i, c);
    }
  }

  /** A fresh table counts nothing. */
  lemma {:induction false} CountsOfEmpty<K>(cells: seq<Cell<K>>)
    requires forall j :: 0 <= j < |cells| ==> cells[j].Empty?
    ensures Fulls(cells) == 0 && Tombs(cells) == 0
  {
    if cells != [] {
      CountsOfEmpty(cells[..|cells| - 1]);
    }
  }

  /** Below capacity, some cell is not full: an insertion always finds room. */
  lemma {:induction false} RoomExists<K>(cells: seq<Cell<K>>) returns (j: nat)
    requires Fulls(cells) < |cells|
    ensures j < |cells| && !cells[j].Full?
  {
    var m := |cells| - 1;
    if cells[m].Full? {
      j := RoomExists(cells[..m]);
    } else {
      j := m;
    }
  }

  /** Below capacity counting tombstones too, an empty cell exists. */
  lemma {:induction false} EmptyExists<K>(cells: seq<Cell<K>>) returns (j: nat)
    requires Fulls(cells) + Tombs(cells) < |cells|
    ensures j < |cells| && cells[j].Empty?
  {
    var m := |cells| - 1;
    if cells[m].Empty? {
      j := m;
    } else {
      j := EmptyExists(cells[..m]);
    }
  }

  /** A probe that met only full cells over the whole table has met every cell. */
  lemma AllFullSaturates<K>(hash: (K, nat) -> nat, cells: seq<Cell<K>>, k: K)
    requires |cells| > 0
    requires forall p :: 0 <= p < |cells| ==> OnPath(hash, cells, k, p).Full?
    ensures Fulls(cells) == |cells|
  {
    forall j | 0 <= j < |cells|
      ensures cells[j].Full?
    {
      assert OnPath(hash, cells, k, Distance(Home(hash, k, |cells|), j, |cells|)) == cells[j];
    }
    CountsOfFull(cells);
  }

  lemma {:induction false} CountsOfFull<K>(cells: seq<Cell<K>>)
    requires forall j :: 0 <= j < |cells| ==> cells[j].Full?
    ensures Fulls(cells) == |cells|
  {
    if cells != [] {
      CountsOfFull(cells[..|cells| - 1]);
    }
  }

  /** A prefix holds no more full cells than the whole. */
  lemma {:induction false} FullsOfPrefix<K>(cells: seq<Cell<K>>, k: nat)
    requires k <= |cells|
    ensures Fulls(cells[..k]) <= Fulls(cells)
  {
    if k == |cells| {
      assert cells[..k] == cells;
    } else {
      assert cells[..|cells| - 1][..k] == cells[..k];
      FullsOfPrefix(cells[..|cells| - 1], k);
    }
  }

  /** A probe that stopped at an empty cell, or covered the table, proves absence. */
  lemma ProbeEndProvesAbsence<K(!new)>(hash: (K, nat) -> nat, cells: seq<Cell<K>>, k: K, end: nat)
    requires TableOk(hash, cells)
    requires end <= |cells|
    requires end < |cells| ==> OnPath(hash, cells, k, end).Empty?
    requires forall p :: 0 <= p < end ==> OnPath(hash, cells, k, p) != Full(k)
    ensures Full(k) !in cells
  {
    forall j | 0 <= j < |cells|
      ensures cells[j] != Full(k)
    {
      var d := Distance(Home(hash, k, |cells|), j, |cells|);
      assert OnPath(hash, cells, k, d) == cells[j];
    }
  }

  lemma InsertKeepsTable<K(!new)>(hash: (K, nat) -> nat, cells: seq<Cell<K>>, k: K, i: nat)
    requires TableOk(hash, cells)
    requires Insertable(hash, cells, k, i)
    ensures TableOk(hash, cells[i := Full(k)])
  {
    var after := cells[i := Full(k)];
    forall j, p | 0 <= j < |after| && after[j].Full?
                  && 0 <= p < Distance(Home(hash, after[j].key, |after|), j, |after|)
      ensures !OnPath(hash, after, after[j].key, p).Empty?
    {
      if j == i {
        assert OnPath(hash, cells, k, p).Full?;
      } else {
        assert !OnPath(hash, cells, cells[j].key, p).Empty?;
      }
    }
  }

  lemma EraseKeepsTable<K(!new)>(hash: (K, nat) -> nat, cells: seq<Cell<K>>, i: nat)
    requires TableOk(hash, cells)
    requires i < |cells| && cells[i].Full?
    ensures TableOk(hash, cells[i := Tomb])
    ensures cells[i] !in cells[i := Tomb]
  {
    var after := cells[i := Tomb];
    forall j, p | 0 <= j < |after| && after[j].Full?
                  && 0 <= p < Distance(Home(hash, after[j].key, |after|), j, |after|)
      ensures !OnPath(hash, after, after[j].key, p).Empty?
    {
      assert !OnPath(hash, cells, cells[j].key, p).Empty?;
    }
  }
}
