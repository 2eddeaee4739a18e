/**
 Opening a buffer directory: finalized segments fold their footer directory
 into the index, the footerless newest one is scanned and reopened.
 */
module Recovery {
  import opened Types
  import opened Bytes
  import opened Segment
  import opened IndexArena
  import opened BufferLog
  import SW = SegmentWriter
  import Idx = Index
  import B = Buffer

  const DEFAULT_SEGMENT_SIZE: nat := 33554432
  const DEFAULT_SWEEP_CHUNK: nat := 4096

  /**
   What a directory was left by: generations `[lo, hi)` finalized with `segs` and
   `metas`; to the active one `whole` had been appended, of which the first `cut`
   bytes are on disk and `segs` names what survives.
   */
  datatype Past = Past(segs: Segs, metas: map<nat, Meta>, lo: nat, hi: nat, whole: seq<Frag>, cut: nat)

  ghost predicate Image(crc: Checksum, gens: seq<nat>, disk: map<nat, seq<byte>>, past: Past) {
    var Past(segs, metas, lo, hi, whole, cut) := past;
    && 1 <= lo <= hi
    && (|gens| == hi - lo || |gens| == hi - lo + 1)
    && |gens| > 0
    && (forall i :: 0 <= i < |gens| ==> gens[i] == lo + i)
    && (forall g :: lo <= g < hi ==> g in disk && g in metas && FinalizedOk(crc, Seg(segs, g), disk[g], metas[g]))
    && (|gens| == hi - lo ==> Seg(segs, hi) == [])
    && (|gens| == hi - lo + 1 ==> hi in disk && TornActive(crc, disk[hi], Seg(segs, hi), whole, cut))
  }

  /** The active file holds the first `cut` bytes of the log of `whole`, of which `kept` survives. */
  ghost predicate TornActive(crc: Checksum, file: seq<byte>, kept: seq<Frag>, whole: seq<Frag>, cut: nat) {
    && Bounded(Recs(whole))
    && cut <= LogSize(Recs(whole))
    && file == Log(crc, Recs(whole))[..cut]
    && ReadFooter(crc, file).None?
    && kept == whole[..Fitting(Recs(whole), cut)]
  }

  /** Scanning a torn active file finds exactly the surviving records. */
  lemma TornActiveScans(crc: Checksum, file: seq<byte>, kept: seq<Frag>, whole: seq<Frag>, cut: nat)
    requires TornActive(crc, file, kept, whole, cut)
    ensures Scan(crc, file, 0) == (Directory(Recs(kept)), LogSize(Recs(kept)))
    ensures LogSize(Recs(kept)) <= |file| && file[..LogSize(Recs(kept))] == Log(crc, Recs(kept))
    ensures Bounded(Recs(kept))
  {
    hide Log, Scan, Fitting, Directory, LogSize, ReadFooter;
    var recs := Recs(whole);
    var k := Fitting(recs, cut);
    assert Recs(kept) == recs[..k];
    TornTail(crc, recs, cut);
    LogPrefix(crc, recs, k);
    var size := LogSize(recs[..k]);
    assert Log(crc, recs)[..cut][..size] == Log(crc, recs)[..size];
  }

  /** The index has been given the first `k` entries of segment `gen`. */
  ghost predicate Folded(contents: map<TraceId, seq<Spot>>, segs: Segs, lo: nat, gen: nat, k: nat) {
    && lo <= gen
    && k <= |Seg(segs, gen)|
    && IndexOk(contents, Upto(segs, lo, gen, k), 1, lo, gen)
  }

  /** `segs` as far as recovery has got: whole segments below `gen`, then `k` fragments. */
  ghost function Upto(segs: Segs, lo: nat, gen: nat, k: nat): (part: Segs)
    requires k <= |Seg(segs, gen)|
  {
    map g | lo <= g <= gen :: if g < gen then Seg(segs, g) else Seg(segs, gen)[..k]
  }

  lemma FoldNothing(segs: Segs, lo: nat)
    requires 1 <= lo
    ensures Folded(map[], segs, lo, lo, 0)
  {
    forall id
      ensures TraceOk(SpotsFor(map[], id), Upto(segs, lo, lo, 0), 1, lo, lo, id)
    {
      LiveOfOne(Upto(segs, lo, lo, 0), lo, id);
    }
  }

  lemma FoldEntry(contents: map<TraceId, seq<Spot>>, segs: Segs, lo: nat, gen: nat, k: nat)
    requires Folded(contents, segs, lo, gen, k)
    requires k < |Seg(segs, gen)|
    ensures var e := Directory(Recs(Seg(segs, gen)))[k];
            Folded(contents[e.id := SpotsFor(contents, e.id) + [Spot(gen, e.off, e.length)]], segs, lo, gen, k + 1)
  {
    hide IndexOk;
    var fs := Seg(segs, gen);
    var part := Upto(segs, lo, gen, k);
    DirectoryAt(Recs(fs), k);
    assert Recs(fs)[..k] == Recs(fs[..k]);
    PutKeepsIndex(contents, part, 1, lo, gen, fs[k]);
    assert fs[..k] + [fs[k]] == fs[..k + 1];
    assert part[gen := Seg(part, gen) + [fs[k]]] == Upto(segs, lo, gen, k + 1);
  }

  lemma FoldNext(contents: map<TraceId, seq<Spot>>, segs: Segs, lo: nat, gen: nat)
    requires Folded(contents, segs, lo, gen, |Seg(segs, gen)|)
    ensures Folded(contents, segs, lo, gen + 1, 0)
  {
    hide IndexOk;
    var part := Upto(segs, lo, gen, |Seg(segs, gen)|);
    RollKeepsIndex(contents, part, 1, lo, gen);
    assert Seg(segs, gen)[..|Seg(segs, gen)|] == Seg(segs, gen) && Seg(segs, gen + 1)[..0] == [];
    assert part[gen + 1 := []] == Upto(segs, lo, gen + 1, 0);
  }

  /** Give the index every entry of a segment's directory, in order. */
  method FoldDirectory(idx: Idx.Index, gen: nat, entries: seq<DirEntry>, ghost good: bool, ghost segs: Segs, ghost lo: nat)
    requires idx.Valid()
    requires good ==> entries == Directory(Recs(Seg(segs, gen))) && Folded(idx.Contents(), segs, lo, gen, 0)
    modifies idx
    ensures idx.Valid()
    ensures good ==> Folded(idx.Contents(), segs, lo, gen, |Seg(segs, gen)|)
  {
    hide Idx.Index.Valid, Folded;
    var i := 0;
    while i < |entries|
      invariant 0 <= i <= |entries|
      invariant idx.Valid()
      invariant good ==> Folded(idx.Contents(), segs, lo, gen, i)
    {
      if good {
        FoldEntry(idx.Contents(), segs, lo, gen, i);
      }
      idx.Put(entries[i].id, Spot(gen, entries[i].off, entries[i].length));
      i := i + 1;
    }
  }

  datatype Parts = Parts(readers: map<nat, seq<byte>>, metas: map<nat, Meta>, finalizedBytes: int)

  /** What the bookkeeping holds once the first `n` generations from `lo` turned out finalized. */
  ghost predicate PartsOk(p: Parts, disk: map<nat, seq<byte>>, metas: map<nat, Meta>, lo: nat, gen: nat) {
    && (forall g :: g in p.readers <==> lo <= g < gen)
    && (forall g :: g in p.metas <==> lo <= g < gen)
    && (forall g :: lo <= g < gen && g in disk && g in metas ==> p.readers[g] == disk[g] && p.metas[g] == metas[g])
    && p.finalizedBytes == SizeSum(p.metas, lo, gen)
  }

  lemma PartsNext(p: Parts, disk: map<nat, seq<byte>>, metas: map<nat, Meta>, lo: nat, gen: nat, file: seq<byte>, m: Meta)
    requires PartsOk(p, disk, metas, lo, gen) && lo <= gen
    requires gen in disk && disk[gen] == file && gen in metas && metas[gen] == m
    ensures PartsOk(Parts(p.readers[gen := file], p.metas[gen := m], p.finalizedBytes + m.size), disk, metas, lo, gen + 1)
  {
    SizeSumPush(p.metas, lo, gen, m);
  }

  /** The finished pieces make a buffer's representation. */
  lemma PartsMakeRep(crc: Checksum, contents: map<TraceId, seq<Spot>>, p: Parts, disk: map<nat, seq<byte>>, segs: Segs,
                     metas: map<nat, Meta>, lo: nat, hi: nat)
    requires 1 <= lo <= hi
    requires PartsOk(p, disk, metas, lo, hi)
    requires forall g :: lo <= g < hi ==> g in disk && g in metas && FinalizedOk(crc, Seg(segs, g), disk[g], metas[g])
    requires Folded(contents, segs, lo, hi, |Seg(segs, hi)|)
    ensures B.Rep(crc, contents, segs, p.readers, p.metas, p.finalizedBytes, 1, lo, hi)
  {
    hide FinalizedOk;
    var part := Upto(segs, lo, hi, |Seg(segs, hi)|);
    assert forall g :: lo <= g <= hi ==> Seg(part, g) == Seg(segs, g);
    forall id
      ensures TraceOk(SpotsFor(contents, id), segs, 1, lo, hi, id)
    {
      assert TraceOk(SpotsFor(contents, id), part, 1, lo, hi, id);
      LiveSpotsFrame(part, segs, lo, hi, id);
    }
  }

  /** Some segment other than the newest has no valid footer. */
  ghost predicate Unreadable(crc: Checksum, gens: seq<nat>, disk: map<nat, seq<byte>>) {
    exists i :: 0 <= i < |gens| - 1 && FooterMissing(crc, disk, gens[i])
  }

  ghost predicate FooterMissing(crc: Checksum, disk: map<nat, seq<byte>>, gen: nat) {
    gen in disk && ReadFooter(crc, disk[gen]).None?
  }

  /** How far recovery of an image has got after its first `i` files. */
  ghost predicate Progress(contents: map<TraceId, seq<Spot>>, p: Parts, disk: map<nat, seq<byte>>, past: Past, i: nat, reopened: bool) {
    var Past(segs, metas, lo, hi, whole, cut) := past;
    if reopened then
      i == hi - lo + 1 && PartsOk(p, disk, metas, lo, hi) && Folded(contents, segs, lo, hi, |Seg(segs, hi)|)
    else
      lo + i <= hi && PartsOk(p, disk, metas, lo, lo + i) && Folded(contents, segs, lo, lo + i, 0)
  }

  ghost predicate ReopenedOk(w: SW.SegmentWriter, crc: Checksum, past: Past, now: int)
    reads w
  {
    w.Valid() && w.crc == crc && w.gen == past.hi && w.frags == Seg(past.segs, past.hi) && w.tMin == now && w.tMax == now
  }

  /** The buffer stands for exactly what the image names, with its recorded time ranges. */
  ghost predicate Restored(b: B.Buffer, past: Past, now: int)
    reads b, b.idx, b.w
  {
    var Past(segs, metas, lo, hi, whole, cut) := past;
    && b.Valid()
    && b.LiveLog() == LiveFrom(segs, lo, hi)
    && b.oldest == lo && b.w.gen == hi
    && (forall g :: lo <= g < hi && g in metas ==> g in b.metas && b.metas[g] == metas[g])
    && (B.MetasCover(segs, metas, lo, hi) && (forall i :: 0 <= i < |Seg(segs, hi)| ==> Seg(segs, hi)[i].stamp <= now) ==> b.TimesCover())
  }

  /** The buffer runs with these settings. */
  ghost predicate Configured(b: B.Buffer, crc: Checksum, window: int, segmentSize: int, sweepChunk: int) {
    b.crc == crc && b.window == window && b.segmentSize == segmentSize && b.sweepChunk == sweepChunk
  }

  /** Fold one finalized segment into the index and the bookkeeping. */
  method FoldFinalized(crc: Checksum, idx: Idx.Index, p: Parts, gen: nat, file: seq<byte>, footer: Footer,
                       ghost good: bool, ghost gens: seq<nat>, ghost disk: map<nat, seq<byte>>, ghost past: Past, ghost i: nat)
      returns (p': Parts)
    requires idx.Valid()
    requires ReadFooter(crc, file) == Some(footer)
    requires good ==> Image(crc, gens, disk, past) && Progress(idx.Contents(), p, disk, past, i, false)
    requires good ==> i < |gens| && gens[i] == gen && gen in disk && disk[gen] == file
    modifies idx
    ensures idx.Valid()
    ensures good ==> Progress(idx.Contents(), p', disk, past, i + 1, false)
  {
    hide Idx.Index.Valid, Folded, PartsOk, FinalizedOk, Log, ReadFooter;
    var m := Meta(footer.tMin, footer.tMax, |file|);
    p' := Parts(p.readers[gen := file], p.metas[gen := m], p.finalizedBytes + |file|);
    if good {
      FinalizedMeta(crc, gens, disk, past, i, footer);
      PartsNext(p, disk, past.metas, past.lo, gen, file, m);
    }
    FoldDirectory(idx, gen, footer.entries, good, past.segs, past.lo);
    if good {
      FoldNext(idx.Contents(), past.segs, past.lo, gen);
    }
  }

  /** A file of the image that has a footer is one of its finalized segments. */
  lemma FinalizedMeta(crc: Checksum, gens: seq<nat>, disk: map<nat, seq<byte>>, past: Past, i: nat, footer: Footer)
    requires Image(crc, gens, disk, past)
    requires i < |gens| && gens[i] in disk && ReadFooter(crc, disk[gens[i]]) == Some(footer)
    ensures past.lo + i < past.hi
    ensures footer.entries == Directory(Recs(Seg(past.segs, gens[i])))
    ensures gens[i] in past.metas && past.metas[gens[i]] == Meta(footer.tMin, footer.tMax, |disk[gens[i]]|)
  {
    var gen := gens[i];
    if past.lo + i < past.hi {
      FinalizedReadsBack(crc, Seg(past.segs, gen), disk[gen], past.metas[gen]);
    }
  }

  /** A file of the image without a footer is its active segment. */
  lemma FooterlessIsActive(crc: Checksum, gens: seq<nat>, disk: map<nat, seq<byte>>, past: Past, i: nat)
    requires Image(crc, gens, disk, past)
    requires i < |gens| && gens[i] in disk && ReadFooter(crc, disk[gens[i]]).None?
    ensures gens[i] == past.hi == past.lo + i && i == |gens| - 1
    ensures TornActive(crc, disk[gens[i]], Seg(past.segs, past.hi), past.whole, past.cut)
  {
    var gen := gens[i];
    if past.lo + i < past.hi {
      FinalizedReadsBack(crc, Seg(past.segs, gen), disk[gen], past.metas[gen]);
    }
  }

  /** Scan the footerless segment, truncate it to its valid prefix and go on appending to it. */
  method ReopenActive(crc: Checksum, idx: Idx.Index, gen: nat, file: seq<byte>, now: int,
                      ghost good: bool, ghost past: Past)
      returns (w: SW.SegmentWriter)
    requires idx.Valid() && SW.IsInt64(now)
    requires good ==> gen == past.hi && TornActive(crc, file, Seg(past.segs, past.hi), past.whole, past.cut)
    requires good ==> Folded(idx.Contents(), past.segs, past.lo, gen, 0)
    modifies idx
    ensures idx.Valid() && fresh(w)
    ensures good ==> Folded(idx.Contents(), past.segs, past.lo, gen, |Seg(past.segs, gen)|)
    ensures good ==> ReopenedOk(w, crc, past, now)
  {
    hide Idx.Index.Valid, Folded, TornActive, Log, Scan, Bounded, Directory;
    var entries, validEnd := ScanRecords(crc, file);
    ghost var kept := Seg(past.segs, gen);
    if good {
      TornActiveScans(crc, file, kept, past.whole, past.cut);
    }
    ScanEndInFile(crc, file, 0);
    w := new SW.SegmentWriter.Recovered(crc, gen, file[..validEnd], entries, now, kept);
    FoldDirectory(idx, gen, entries, good, past.segs, past.lo);
  }

  lemma {:induction false} ScanEndInFile(crc: Checksum, rest: seq<byte>, off: nat)
    ensures off <= Scan(crc, rest, off).1 <= off + |rest|
    decreases |rest|
  {
    if |rest| >= REC_HEADER_LEN {
      var (length, id, want) := ParseRecordHeader(rest[..REC_HEADER_LEN]);
      if length <= MAX_RECORD_LEN && |rest| - REC_HEADER_LEN >= length {
        ScanEndInFile(crc, rest[REC_HEADER_LEN + length..], off + REC_HEADER_LEN + length);
      }
    }
  }

  lemma StartProgress(crc: Checksum, gens: seq<nat>, disk: map<nat, seq<byte>>, past: Past)
    requires Image(crc, gens, disk, past)
    ensures Progress(map[], Parts(map[], map[], 0), disk, past, 0, false)
  {
    FoldNothing(past.segs, past.lo);
  }

  /** The last generation's writer: the reopened one, or a new segment behind the finalized ones. */
  lemma FinishProgress(crc: Checksum, gens: seq<nat>, disk: map<nat, seq<byte>>, past: Past,
                       contents: map<TraceId, seq<Spot>>, p: Parts, reopened: bool)
    requires Image(crc, gens, disk, past)
    requires Progress(contents, p, disk, past, |gens|, reopened)
    ensures !reopened ==> gens[|gens| - 1] + 1 == past.hi && Seg(past.segs, past.hi) == []
    ensures B.Rep(crc, contents, past.segs, p.readers, p.metas, p.finalizedBytes, 1, past.lo, past.hi)
    ensures forall g :: past.lo <= g < past.hi ==> g in past.metas && g in p.metas && p.metas[g] == past.metas[g]
    ensures B.MetasCover(past.segs, past.metas, past.lo, past.hi) ==> B.MetasCover(past.segs, p.metas, past.lo, past.hi)
  {
    hide Folded, FinalizedOk, TornActive;
    PartsMakeRep(crc, contents, p, disk, past.segs, past.metas, past.lo, past.hi);
  }

  /**
   Recover a nonempty directory listed in ascending order. Fails exactly when a
   segment that is not the newest lacks a footer. From an image it yields a
   buffer standing for exactly what the image names.
   */
  method Recover(crc: Checksum, window: int, segmentSize: nat, sweepChunk: nat, idx: Idx.Index,
                 gens: seq<nat>, disk: map<nat, seq<byte>>, now: int, ghost past: Past)
      returns (r: Option<B.Buffer>)
    requires idx.Valid() && idx.Contents() == map[]
    requires 0 < segmentSize <= MAX_SEGMENT && SW.IsInt64(now)
    requires |gens| > 0 && forall i :: 0 <= i < |gens| ==> gens[i] in disk
    modifies idx
    ensures r.None? <==> Unreadable(crc, gens, disk)
    ensures r.Some? ==> fresh(r.value) && fresh(r.value.w) && r.value.idx == idx
    ensures r.Some? ==> Configured(r.value, crc, window, segmentSize, sweepChunk)
    ensures Image(crc, gens, disk, past) ==> r.Some? && Restored(r.value, past, now)
  {
    hide Idx.Index.Valid, Image, Progress, FooterMissing, B.Rep, B.MetasCover, LiveFrom, PartsOk, Folded, TornActive, ReadFooter;
    var p := Parts(map[], map[], 0);
    var w: SW.SegmentWriter? := null;
    ghost var good := Image(crc, gens, disk, past);
    if good {
      StartProgress(crc, gens, disk, past);
    }
    var i := 0;
    while i < |gens|
      invariant 0 <= i <= |gens|
      invariant idx.Valid()
      invariant forall j :: 0 <= j < i && j < |gens| - 1 ==> !FooterMissing(crc, disk, gens[j])
      invariant w != null ==> fresh(w) && i == |gens|
      invariant good ==> Progress(idx.Contents(), p, disk, past, i, w != null)
      invariant good && w != null ==> ReopenedOk(w, crc, past, now)
    {
      var footer := ReadFooter(crc, disk[gens[i]]);
      MissingIffNone(crc, disk, gens[i]);
      if footer.Some? {
        p := FoldFinalized(crc, idx, p, gens[i], disk[gens[i]], footer.value, good, gens, disk, past, i);
      } else {
        if good {
          FooterlessIsActive(crc, gens, disk, past, i);
          AtActive(idx.Contents(), p, disk, past, i);
        }
        if i != |gens| - 1 {
          return None;
        }
        w := ReopenActive(crc, idx, gens[i], disk[gens[i]], now, good, past);
        if good {
          PastActive(idx.Contents(), p, disk, past, i);
        }
      }
      i := i + 1;
    }
    if good {
      FinishProgress(crc, gens, disk, past, idx.Contents(), p, w != null);
    }
    if w == null {
      w := new SW.SegmentWriter(crc, gens[|gens| - 1] + 1);
    }
    var b := new B.Buffer(crc, window, segmentSize, sweepChunk, idx, w, p.readers, p.metas, p.finalizedBytes, 1, past.segs, past.lo);
    r := Some(b);
  }

  lemma MissingIffNone(crc: Checksum, disk: map<nat, seq<byte>>, gen: nat)
    requires gen in disk
    ensures FooterMissing(crc, disk, gen) <==> ReadFooter(crc, disk[gen]).None?
  {
  }

  lemma AtActive(contents: map<TraceId, seq<Spot>>, p: Parts, disk: map<nat, seq<byte>>, past: Past, i: nat)
    requires Progress(contents, p, disk, past, i, false) && past.lo + i == past.hi
    ensures Folded(contents, past.segs, past.lo, past.hi, 0) && PartsOk(p, disk, past.metas, past.lo, past.hi)
  {
    hide Folded, PartsOk;
  }

  lemma PastActive(contents: map<TraceId, seq<Spot>>, p: Parts, disk: map<nat, seq<byte>>, past: Past, i: nat)
    requires past.lo + i == past.hi && PartsOk(p, disk, past.metas, past.lo, past.hi)
    requires Folded(contents, past.segs, past.lo, past.hi, |Seg(past.segs, past.hi)|)
    ensures Progress(contents, p, disk, past, i + 1, true)
  {
  }

  /** Open a directory: validate the options, then create generation 1 or recover what is there. */
  method Open(crc: Checksum, hash: (TraceId, nat) -> nat, window: int, segmentSize: int, sweepChunk: int,
              gens: seq<nat>, disk: map<nat, seq<byte>>, now: int, ghost past: Past)
      returns (r: Option<B.Buffer>)
    requires SW.IsInt64(now)
    requires forall i :: 0 <= i < |gens| ==> gens[i] in disk
    ensures r.None? <==> window <= 0 || segmentSize > MAX_SEGMENT || (gens != [] && Unreadable(crc, gens, disk))
    ensures r.Some? ==> fresh(r.value) && fresh(r.value.w) && fresh(r.value.idx)
    ensures r.Some? ==> Configured(r.value, crc, window, if segmentSize <= 0 then DEFAULT_SEGMENT_SIZE else segmentSize,
                                   if sweepChunk <= 0 then DEFAULT_SWEEP_CHUNK else sweepChunk)
    ensures r.Some? && gens == [] ==> r.value.Valid() && r.value.LiveLog() == [] && r.value.TimesCover()
    ensures Image(crc, gens, disk, past) && window > 0 && segmentSize <= MAX_SEGMENT ==> r.Some? && Restored(r.value, past, now)
  {
    if window <= 0 || segmentSize > MAX_SEGMENT {
      return None;
    }
    var size: nat := if segmentSize <= 0 then DEFAULT_SEGMENT_SIZE else segmentSize;
    var chunk: nat := if sweepChunk <= 0 then DEFAULT_SWEEP_CHUNK else sweepChunk;
    var idx := new Idx.Index(hash);
    hide Idx.Index.Valid, Restored, Unreadable;
    if gens == [] {
      FoldNothing(map[], 1);
      var w := new SW.SegmentWriter(crc, 1);
      var b := new B.Buffer(crc, window, size, chunk, idx, w, map[], map[], 0, 1, map[], 1);
      PartsMakeRep(crc, map[], Parts(map[], map[], 0), map[], map[], map[], 1, 1);
      assert LiveFrom(map[], 1, 1) == Seg(map[], 1) + LiveFrom(map[], 2, 1) == [];
      return Some(b);
    }
    r := Recover(crc, window, size, chunk, idx, gens, disk, now, past);
  }

  /** A sorted directory listing: every file once, ascending. */
  ghost predicate Lists(gens: seq<nat>, lo: nat, hi: nat) {
    && (forall i, j :: 0 <= i < j < |gens| ==> gens[i] < gens[j])
    && (forall g :: g in gens <==> lo <= g <= hi)
  }

  /** Listing consecutive generations in order leaves no choice. */
  lemma {:induction false} ListsConsecutively(gens: seq<nat>, lo: nat, hi: nat)
    requires lo <= hi && Lists(gens, lo, hi)
    ensures |gens| == hi - lo + 1 && forall i :: 0 <= i < |gens| ==> gens[i] == lo + i
    decreases hi - lo
  {
    assert |gens| > 1 ==> gens[1] in gens && gens[0] < gens[1];
    assert lo in gens;
    var at :| 0 <= at < |gens| && gens[at] == lo;
    assert gens[0] in gens && gens[0] == lo;
    var rest := gens[1..];
    forall g
      ensures g in rest <==> lo < g <= hi
    {
      if g in rest {
        var i :| 0 <= i < |rest| && rest[i] == g;
        assert gens[0] < gens[i + 1] && gens[i + 1] == g && g in gens;
      }
      if lo < g <= hi {
        assert g in gens;
        var i :| 0 <= i < |gens| && gens[i] == g;
        assert i > 0 && rest[i - 1] == g;
      }
    }
    if lo < hi {
      ListsConsecutively(rest, lo + 1, hi);
    }
  }

  /** What a buffer's directory looks like when only `cut` bytes of its active segment reached the disk. */
  ghost function PastOf(segs: Segs, metas: map<nat, Meta>, lo: nat, hi: nat, active: seq<Frag>, cut: nat): (past: Past) {
    Past(segs[hi := active[..Fitting(Recs(active), cut)]], metas, lo, hi, active, cut)
  }

  lemma DirectoryIsImage(crc: Checksum, gens: seq<nat>, segs: Segs, readers: map<nat, seq<byte>>, metas: map<nat, Meta>,
                         lo: nat, hi: nat, active: seq<Frag>, cut: nat)
    requires 1 <= lo <= hi && FilesOk(crc, segs, readers, metas, lo, hi)
    requires Lists(gens, lo, hi)
    requires Bounded(Recs(active)) && cut <= LogSize(Recs(active))
    requires ReadFooter(crc, Log(crc, Recs(active))[..cut]).None?
    ensures Image(crc, gens, readers[hi := Log(crc, Recs(active))[..cut]], PastOf(segs, metas, lo, hi, active, cut))
    ensures gens != [] && forall i :: 0 <= i < |gens| ==> gens[i] in readers[hi := Log(crc, Recs(active))[..cut]]
  {
    hide FinalizedOk, Fitting, Log, LogSize, ReadFooter, Bounded, Lists;
    ListsConsecutively(gens, lo, hi);
    var past := PastOf(segs, metas, lo, hi, active, cut);
    assert forall g :: lo <= g < hi ==> Seg(past.segs, g) == Seg(segs, g);
  }

  lemma PastCovers(segs: Segs, metas: map<nat, Meta>, lo: nat, hi: nat, active: seq<Frag>, cut: nat, now: int)
    requires B.MetasCover(segs, metas, lo, hi)
    requires forall i :: 0 <= i < |active| ==> active[i].stamp <= now
    ensures var past := PastOf(segs, metas, lo, hi, active, cut);
            && B.MetasCover(past.segs, past.metas, past.lo, past.hi)
            && forall i :: 0 <= i < |Seg(past.segs, past.hi)| ==> Seg(past.segs, past.hi)[i].stamp <= now
  {
    var past := PastOf(segs, metas, lo, hi, active, cut);
    forall g, i | lo <= g < hi && g in past.metas && 0 <= i < |Seg(past.segs, g)|
      ensures Seg(past.segs, g)[i].stamp <= past.metas[g].tMax
    {
      assert Seg(past.segs, g) == Seg(segs, g);
    }
  }

  lemma RepFiles(crc: Checksum, contents: map<TraceId, seq<Spot>>, segs: Segs, readers: map<nat, seq<byte>>,
                 metas: map<nat, Meta>, finalizedBytes: int, minGen: nat, oldest: nat, gen: nat)
    requires B.Rep(crc, contents, segs, readers, metas, finalizedBytes, minGen, oldest, gen)
    ensures minGen <= oldest <= gen && FilesOk(crc, segs, readers, metas, oldest, gen)
  {
  }

  /** What survives a cut of the active segment is all but its last records. */
  lemma {:induction false} LiveAfterCut(segs: Segs, g: nat, hi: nat, k: nat)
    requires g <= hi && k <= |Seg(segs, hi)|
    ensures |Seg(segs, hi)| <= |LiveFrom(segs, g, hi)|
    ensures LiveFrom(segs[hi := Seg(segs, hi)[..k]], g, hi) == LiveFrom(segs, g, hi)[..|LiveFrom(segs, g, hi)| - (|Seg(segs, hi)| - k)]
    decreases hi - g
  {
    var segs' := segs[hi := Seg(segs, hi)[..k]];
    if g == hi {
      LiveOfOne(segs, hi, 0);
      LiveOfOne(segs', hi, 0);
    } else {
      LiveAfterCut(segs, g + 1, hi, k);
      assert Seg(segs', g) == Seg(segs, g);
    }
  }

  lemma PastLive(segs: Segs, metas: map<nat, Meta>, lo: nat, hi: nat, active: seq<Frag>, cut: nat)
    requires lo <= hi && Seg(segs, hi) == active
    ensures var past, live, lost := PastOf(segs, metas, lo, hi, active, cut), LiveFrom(segs, lo, hi), |active| - Fitting(Recs(active), cut);
            && past.lo == lo && past.hi == hi
            && 0 <= lost <= |live|
            && LiveFrom(past.segs, lo, hi) == live[..|live| - lost]
            && (cut == LogSize(Recs(active)) ==> lost == 0)
  {
    LiveAfterCut(segs, lo, hi, Fitting(Recs(active), cut));
  }

  /**
   Restart: close (or lose all but `cut` bytes of the active segment) and open
   again. The new buffer retains the same fragments in the same order, short
   only of the records that did not wholly reach the disk. The one hypothesis
   is that the active bytes do not happen to end in a valid footer.
   */
  method Restart(b: B.Buffer, hash: (TraceId, nat) -> nat, gens: seq<nat>, cut: nat, now: int) returns (r: Option<B.Buffer>)
    requires b.Valid() && b.window > 0 && SW.IsInt64(now)
    requires Lists(gens, b.oldest, b.w.gen)
    requires cut <= b.w.size && ReadFooter(b.crc, b.w.bytes[..cut]).None?
    ensures r.Some? && r.value.Valid() && fresh(r.value) && fresh(r.value.w) && fresh(r.value.idx)
    ensures Configured(r.value, b.crc, b.window, b.segmentSize, if b.sweepChunk == 0 then DEFAULT_SWEEP_CHUNK else b.sweepChunk)
    ensures var lost := |b.w.frags| - Fitting(Recs(b.w.frags), cut);
            0 <= lost <= |b.LiveLog()| && r.value.LiveLog() == b.LiveLog()[..|b.LiveLog()| - lost]
    ensures cut == b.w.size ==> r.value.LiveLog() == b.LiveLog()
    ensures b.TimesCover() && (forall i :: 0 <= i < |b.w.frags| ==> b.w.frags[i].stamp <= now) ==> r.value.TimesCover()
  {
    hide Idx.Index.Valid, B.Rep, B.MetasCover, LiveFrom, Image, Lists, Log, LogSize, Directory, FilesOk, Bounded, ReadFooter, PastOf;
    ghost var lo, hi, active := b.oldest, b.w.gen, b.w.frags;
    ghost var past := PastOf(b.segs, b.metas, lo, hi, active, cut);
    RepFiles(b.crc, b.idx.Contents(), b.segs, b.readers, b.metas, b.finalizedBytes, b.minGen, lo, hi);
    DirectoryIsImage(b.crc, gens, b.segs, b.readers, b.metas, lo, hi, active, cut);
    PastLive(b.segs, b.metas, lo, hi, active, cut);
    if b.TimesCover() && (forall i :: 0 <= i < |active| ==> active[i].stamp <= now) {
      PastCovers(b.segs, b.metas, lo, hi, active, cut, now);
    }
    var disk := b.Close();
    disk := disk[b.w.gen := disk[b.w.gen][..cut]];
    assert disk == b.readers[hi := Log(b.crc, Recs(active))[..cut]];
    r := Open(b.crc, hash, b.window, b.segmentSize, b.sweepChunk, gens, disk, now, past);
  }
}
