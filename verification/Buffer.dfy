/**
 The segment buffer: appends go to the active segment, which rolls into
 finalized ones; retention drops whole segments, oldest first. The
 specification is `LiveLog()`, the plain list of retained fragments.
 */
module Buffer {
  import opened Types
  import opened Bytes
  import opened Segment
  import opened IndexArena
  import opened BufferLog
  import SW = SegmentWriter
  import Idx = Index

  /** What must hold of the pieces for the buffer to stand for `segs`. */
  ghost predicate Rep(crc: Checksum, contents: map<TraceId, seq<Spot>>, segs: Segs, readers: map<nat, seq<byte>>,
                      metas: map<nat, Meta>, finalizedBytes: int, minGen: nat, oldest: nat, gen: nat)
  {
    && oldest <= gen
    && IndexOk(contents, segs, minGen, oldest, gen)
    && FilesOk(crc, segs, readers, metas, oldest, gen)
    && finalizedBytes == SizeSum(metas, oldest, gen)
  }

  /** Every finalized segment's fragments were stamped no later than its recorded maximum. */
  ghost predicate MetasCover(segs: Segs, metas: map<nat, Meta>, oldest: nat, gen: nat) {
    forall g, i :: oldest <= g < gen && g in metas && 0 <= i < |Seg(segs, g)| ==> Seg(segs, g)[i].stamp <= metas[g].tMax
  }

  lemma AppendKeepsRep(crc: Checksum, contents: map<TraceId, seq<Spot>>, segs: Segs, readers: map<nat, seq<byte>>,
                       metas: map<nat, Meta>, finalizedBytes: int, minGen: nat, oldest: nat, gen: nat, f: Frag)
    requires Rep(crc, contents, segs, readers, metas, finalizedBytes, minGen, oldest, gen)
    ensures Rep(crc, contents[f.rec.id := SpotsFor(contents, f.rec.id) + [SpotOf(gen, Recs(Seg(segs, gen)), f.rec)]],
                segs[gen := Seg(segs, gen) + [f]], readers, metas, finalizedBytes, minGen, oldest, gen)
    ensures LiveFrom(segs[gen := Seg(segs, gen) + [f]], oldest, gen) == LiveFrom(segs, oldest, gen) + [f]
  {
    hide IndexOk, SizeSum, FinalizedOk;
    PutKeepsIndex(contents, segs, minGen, oldest, gen, f);
    LiveAppend(segs, oldest, gen, f, f.rec.id);
    assert forall g :: oldest <= g < gen ==> Seg(segs[gen := Seg(segs, gen) + [f]], g) == Seg(segs, g);
  }

  lemma RollKeepsRep(crc: Checksum, contents: map<TraceId, seq<Spot>>, segs: Segs, readers: map<nat, seq<byte>>,
                     metas: map<nat, Meta>, finalizedBytes: int, minGen: nat, oldest: nat, gen: nat,
                     file: seq<byte>, m: Meta)
    requires Rep(crc, contents, segs, readers, metas, finalizedBytes, minGen, oldest, gen)
    requires FinalizedOk(crc, Seg(segs, gen), file, m)
    ensures Rep(crc, contents, segs[gen + 1 := []], readers[gen := file], metas[gen := m], finalizedBytes + m.size, minGen, oldest, gen + 1)
    ensures LiveFrom(segs[gen + 1 := []], oldest, gen + 1) == LiveFrom(segs, oldest, gen)
  {
    hide IndexOk, SizeSum, FinalizedOk;
    RollKeepsIndex(contents, segs, minGen, oldest, gen);
    LiveRoll(segs, oldest, gen, 0);
    SizeSumPush(metas, oldest, gen, m);
    assert forall g :: oldest <= g <= gen ==> Seg(segs[gen + 1 := []], g) == Seg(segs, g);
  }

  lemma DropKeepsFiles(crc: Checksum, segs: Segs, readers: map<nat, seq<byte>>, metas: map<nat, Meta>, oldest: nat, gen: nat)
    requires FilesOk(crc, segs, readers, metas, oldest, gen)
    requires oldest < gen
    ensures oldest in metas
    ensures FilesOk(crc, segs - {oldest}, readers - {oldest}, metas - {oldest}, oldest + 1, gen)
    ensures SizeSum(metas - {oldest}, oldest + 1, gen) == SizeSum(metas, oldest, gen) - metas[oldest].size
  {
    hide FinalizedOk;
    SizeSumFrame(metas, metas - {oldest}, oldest + 1, gen);
    assert forall g :: oldest + 1 <= g < gen ==> Seg(segs - {oldest}, g) == Seg(segs, g);
  }

  lemma DropKeepsRep(crc: Checksum, contents: map<TraceId, seq<Spot>>, segs: Segs, readers: map<nat, seq<byte>>,
                     metas: map<nat, Meta>, finalizedBytes: int, minGen: nat, oldest: nat, gen: nat)
    requires Rep(crc, contents, segs, readers, metas, finalizedBytes, minGen, oldest, gen)
    requires oldest < gen
    ensures oldest in metas
    ensures Rep(crc, contents, segs - {oldest}, readers - {oldest}, metas - {oldest}, finalizedBytes - metas[oldest].size,
                oldest + 1, oldest + 1, gen)
    ensures LiveFrom(segs, oldest, gen) == Seg(segs, oldest) + LiveFrom(segs - {oldest}, oldest + 1, gen)
    ensures Seg(segs - {oldest}, gen) == Seg(segs, gen)
  {
    hide IndexOk, FilesOk, SizeSum, LiveFrom, LiveSpots;
    DropKeepsIndex(contents, segs, minGen, oldest, gen);
    DropKeepsFiles(crc, segs, readers, metas, oldest, gen);
    LiveSplit(segs, oldest, gen, 0);
    LiveSpotsFrame(segs, segs - {oldest}, oldest + 1, gen, 0);
  }

  /** The running total of finalized bytes, with the active bytes, is what the files hold. */
  lemma DiskIsFiles(crc: Checksum, contents: map<TraceId, seq<Spot>>, segs: Segs, readers: map<nat, seq<byte>>,
                    metas: map<nat, Meta>, finalizedBytes: int, minGen: nat, oldest: nat, gen: nat, active: seq<byte>)
    requires Rep(crc, contents, segs, readers, metas, finalizedBytes, minGen, oldest, gen)
    ensures FileSum(readers[gen := active], oldest, gen + 1) == finalizedBytes + |active|
  {
    hide IndexOk, FinalizedOk;
    SizesAreFiles(crc, segs, readers, metas, oldest, oldest, gen);
    FileSumFrame(readers, readers[gen := active], oldest, gen);
    FileSumLast(readers[gen := active], oldest, gen);
  }

  /** The oldest segment's recorded size is its file's. */
  lemma OldestFileSize(crc: Checksum, contents: map<TraceId, seq<Spot>>, segs: Segs, readers: map<nat, seq<byte>>,
                       metas: map<nat, Meta>, finalizedBytes: int, minGen: nat, oldest: nat, gen: nat)
    requires Rep(crc, contents, segs, readers, metas, finalizedBytes, minGen, oldest, gen) && oldest < gen
    ensures oldest in readers && oldest in metas && metas[oldest].size == |readers[oldest]|
  {
    hide IndexOk;
    assert FinalizedOk(crc, Seg(segs, oldest), readers[oldest], metas[oldest]);
  }

  lemma FinalizedReadable(crc: Checksum, segs: Segs, readers: map<nat, seq<byte>>, metas: map<nat, Meta>, oldest: nat, gen: nat, g: nat)
    requires FilesOk(crc, segs, readers, metas, oldest, gen)
    requires oldest <= g < gen
    ensures g in readers && Bounded(Recs(Seg(segs, g))) && Log(crc, Recs(Seg(segs, g))) <= readers[g]
  {
    FinalizedReadsBack(crc, Seg(segs, g), readers[g], metas[g]);
  }

  lemma RepReads(crc: Checksum, contents: map<TraceId, seq<Spot>>, segs: Segs, readers: map<nat, seq<byte>>,
                 metas: map<nat, Meta>, finalizedBytes: int, minGen: nat, oldest: nat, gen: nat, active: seq<byte>, id: TraceId)
    requires Rep(crc, contents, segs, readers, metas, finalizedBytes, minGen, oldest, gen)
    requires Bounded(Recs(Seg(segs, gen))) && active == Log(crc, Recs(Seg(segs, gen)))
    ensures AllRead(crc, readers[gen := active], FilterGen(SpotsFor(contents, id), minGen), id, OfTrace(LiveFrom(segs, oldest, gen), id))
  {
    hide FilterGen, LiveSpots, LiveFrom, OfTrace, AllRead, Bounded, Log, FilesOk, SizeSum;
    assert TraceOk(SpotsFor(contents, id), segs, minGen, oldest, gen, id);
    var files := readers[gen := active];
    forall x | oldest <= x <= gen
      ensures x in files && Bounded(Recs(Seg(segs, x))) && Log(crc, Recs(Seg(segs, x))) <= files[x]
    {
      if x < gen {
        FinalizedReadable(crc, segs, readers, metas, oldest, gen, x);
      }
    }
    LiveSpotsRead(crc, segs, files, oldest, gen, id);
  }

  /** Rolling records the active segment's own maximum. */
  lemma RollKeepsCover(segs: Segs, metas: map<nat, Meta>, oldest: nat, gen: nat, m: Meta)
    requires MetasCover(segs, metas, oldest, gen)
    requires forall i :: 0 <= i < |Seg(segs, gen)| ==> Seg(segs, gen)[i].stamp <= m.tMax
    ensures MetasCover(segs[gen + 1 := []], metas[gen := m], oldest, gen + 1)
  {
    assert forall g :: oldest <= g <= gen ==> Seg(segs[gen + 1 := []], g) == Seg(segs, g);
  }

  lemma AppendKeepsCover(segs: Segs, metas: map<nat, Meta>, oldest: nat, gen: nat, f: Frag)
    requires MetasCover(segs, metas, oldest, gen)
    ensures MetasCover(segs[gen := Seg(segs, gen) + [f]], metas, oldest, gen)
  {
    var segs' := segs[gen := Seg(segs, gen) + [f]];
    forall g, i | oldest <= g < gen && g in metas && 0 <= i < |Seg(segs', g)|
      ensures Seg(segs', g)[i].stamp <= metas[g].tMax
    {
      assert Seg(segs', g) == Seg(segs, g);
    }
  }

  lemma DropKeepsCover(segs: Segs, metas: map<nat, Meta>, oldest: nat, gen: nat)
    requires MetasCover(segs, metas, oldest, gen)
    ensures MetasCover(segs - {oldest}, metas - {oldest}, oldest + 1, gen)
  {
    assert forall g :: oldest < g < gen ==> Seg(segs - {oldest}, g) == Seg(segs, g);
  }

  lemma SweepKeepsRep(crc: Checksum, contents: map<TraceId, seq<Spot>>, swept: set<TraceId>, segs: Segs,
                      readers: map<nat, seq<byte>>, metas: map<nat, Meta>, finalizedBytes: int, minGen: nat, oldest: nat, gen: nat)
    requires Rep(crc, contents, segs, readers, metas, finalizedBytes, minGen, oldest, gen)
    requires forall id :: id in swept ==> id in contents && contents[id] != [] && Idx.NewestGen(contents[id]) < minGen
    ensures Rep(crc, contents - swept, segs, readers, metas, finalizedBytes, minGen, oldest, gen)
  {
    SweepKeepsIndex(contents, swept, segs, minGen, oldest, gen);
  }

  lemma RepKeys(crc: Checksum, contents: map<TraceId, seq<Spot>>, segs: Segs, readers: map<nat, seq<byte>>,
                metas: map<nat, Meta>, finalizedBytes: int, minGen: nat, oldest: nat, gen: nat)
    requires Rep(crc, contents, segs, readers, metas, finalizedBytes, minGen, oldest, gen)
    ensures oldest <= gen
    ensures forall g :: g in metas <==> oldest <= g < gen
    ensures forall g :: g in readers <==> oldest <= g < gen
  {
  }

  /** Segments `lo` to `hi` ended before the cutoff and can be removed. */
  ghost predicate ExpiredRun(metas: map<nat, Meta>, lo: nat, hi: nat, cutoff: int, removable: nat -> bool) {
    forall g :: lo <= g < hi ==> g in metas && metas[g].tMax < cutoff && removable(g)
  }

  /** Segment `g` ended at or after the cutoff, or cannot be removed. */
  ghost predicate Stays(metas: map<nat, Meta>, g: nat, cutoff: int, removable: nat -> bool) {
    g in metas && (metas[g].tMax >= cutoff || !removable(g))
  }

  /** The first segment from `lo` on that stays, or `hi`. */
  ghost function FirstStaying(metas: map<nat, Meta>, lo: nat, hi: nat, cutoff: int, removable: nat -> bool): (g: nat)
    decreases hi - lo
  {
    if lo >= hi || Stays(metas, lo, cutoff, removable) then lo else FirstStaying(metas, lo + 1, hi, cutoff, removable)
  }

  lemma {:induction false} FirstStayingIs(metas: map<nat, Meta>, lo: nat, g: nat, hi: nat, cutoff: int, removable: nat -> bool)
    requires lo <= g <= hi && ExpiredRun(metas, lo, g, cutoff, removable)
    requires g < hi ==> Stays(metas, g, cutoff, removable)
    ensures FirstStaying(metas, lo, hi, cutoff, removable) == g
    decreases g - lo
  {
    if lo < g {
      FirstStayingIs(metas, lo + 1, g, hi, cutoff, removable);
    }
  }

  ghost predicate SameMetas(a: map<nat, Meta>, b: map<nat, Meta>, lo: nat, hi: nat) {
    forall g :: lo <= g < hi ==> g in a && g in b && a[g] == b[g]
  }

  /** The entry with the lowest generation; a map is walked in no particular order. */
  method LowestGen(metas: map<nat, Meta>) returns (gen: nat, meta: Meta, found: bool)
    ensures found <==> metas != map[]
    ensures found ==> gen in metas && meta == metas[gen] && forall g :: g in metas ==> gen <= g
  {
    gen, meta, found := 0, Meta(0, 0, 0), false;
    var todo := metas.Keys;
    while todo != {}
      invariant todo <= metas.Keys
      invariant found ==> gen in metas && meta == metas[gen]
      invariant found ==> forall g :: g in metas && g !in todo ==> gen <= g
      invariant !found ==> todo == metas.Keys
      decreases |todo|
    {
      var g :| g in todo;
      todo := todo - {g};
      if !found || g < gen {
        gen, meta, found := g, metas[g], true;
      }
    }
  }

  class Buffer {
    const crc: Checksum
    const window: int
    const segmentSize: nat
    const sweepChunk: nat
    const idx: Idx.Index
    var w: SW.SegmentWriter
    var readers: map<nat, seq<byte>>
    var metas: map<nat, Meta>
    var finalizedBytes: int
    var minGen: nat
    ghost var segs: Segs
    ghost var oldest: nat

    ghost predicate Valid()
      reads this, idx, w
    {
      && idx.Valid()
      && w.Valid() && w.crc == crc
      && 0 < segmentSize <= MAX_SEGMENT
      && minGen >= 1
      && Seg(segs, w.gen) == w.frags
      && Rep(crc, idx.Contents(), segs, readers, metas, finalizedBytes, minGen, oldest, w.gen)
    }

    /** Would a fragment of this length overfill a nonempty active segment? */
    predicate MustRoll(size: nat, length: nat) {
      size > 0 && size + REC_HEADER_LEN + length > segmentSize
    }

    /** Assemble a buffer from its parts. */
    constructor (crc: Checksum, window: int, segmentSize: nat, sweepChunk: nat, idx: Idx.Index, w: SW.SegmentWriter,
                 readers: map<nat, seq<byte>>, metas: map<nat, Meta>, finalizedBytes: int, minGen: nat,
                 ghost segs: Segs, ghost oldest: nat)
      ensures this.crc == crc && this.window == window && this.segmentSize == segmentSize && this.sweepChunk == sweepChunk
      ensures this.idx == idx && this.w == w && this.readers == readers && this.metas == metas
      ensures this.finalizedBytes == finalizedBytes && this.minGen == minGen && this.segs == segs && this.oldest == oldest
    {
      this.crc, this.window, this.segmentSize, this.sweepChunk := crc, window, segmentSize, sweepChunk;
      this.idx, this.w, this.readers, this.metas := idx, w, readers, metas;
      this.finalizedBytes, this.minGen, this.segs, this.oldest := finalizedBytes, minGen, segs, oldest;
    }

    /** The retained fragments, in append order. */
    ghost function LiveLog(): (fs: seq<Frag>)
      reads this, w
    {
      LiveFrom(segs, oldest, w.gen)
    }

    /** No fragment is stamped later than the time range recorded for its segment. */
    ghost predicate TimesCover()
      reads this, w
    {
      w.TimesCover() && MetasCover(segs, metas, oldest, w.gen)
    }

    ghost function Disk(): (n: int)
      reads this, w
    {
      finalizedBytes + w.size
    }

    /** Finalize the active segment and start the next; refused only for a negative time range. */
    method Roll() returns (ok: bool)
      requires Valid()
      modifies this`w, this`readers, this`metas, this`finalizedBytes, this`segs
      ensures Valid()
      ensures ok <==> old(w.tMin) >= 0 && old(w.tMax) >= 0
      ensures !ok ==> w == old(w) && segs == old(segs) && readers == old(readers) && metas == old(metas) && finalizedBytes == old(finalizedBytes)
      ensures ok ==> fresh(w) && w.size == 0 && w.gen == old(w.gen) + 1 && w.tMin == MAX_INT64
      ensures ok ==> old(w.gen) in metas && metas == old(metas)[old(w.gen) := metas[old(w.gen)]]
                     && metas[old(w.gen)].tMin == old(w.tMin) && metas[old(w.gen)].tMax == old(w.tMax)
      ensures LiveLog() == old(LiveLog())
      ensures old(TimesCover()) ==> TimesCover()
    {
      hide Rep, Log, Directory, FinalizedFile, MetasCover, Idx.Index.Valid;
      var gen, tMin, tMax := w.gen, w.tMin, w.tMax;
      var file;
      ok, file := w.Finalize();
      if !ok {
        return;
      }
      var m := Meta(tMin, tMax, |file|);
      assert FinalizedOk(crc, w.frags, file, m);
      RollKeepsRep(crc, idx.Contents(), segs, readers, metas, finalizedBytes, minGen, oldest, gen, file, m);
      if TimesCover() {
        RollKeepsCover(segs, metas, oldest, gen, m);
      }
      readers := readers[gen := file];
      metas := metas[gen := m];
      finalizedBytes := finalizedBytes + |file|;
      w := new SW.SegmentWriter(crc, gen + 1);
      segs := segs[gen + 1 := []];
    }

    /** Append a fragment, rolling first when it would overfill the active segment. */
    method Append(id: TraceId, frag: seq<byte>, now: int) returns (ok: bool)
      requires Valid() && SW.IsInt64(now)
      modifies this, idx, w
      ensures Valid() && (w == old(w) || fresh(w))
      ensures ok <==> (|frag| <= MAX_RECORD_LEN && (MustRoll(old(w.size), |frag|) ==> old(w.tMin) >= 0 && old(w.tMax) >= 0))
      ensures LiveLog() == if ok then old(LiveLog()) + [Frag(Rec(id, frag), now)] else old(LiveLog())
      ensures oldest == old(oldest) && w.gen == old(w.gen) + if ok && MustRoll(old(w.size), |frag|) then 1 else 0
      ensures old(TimesCover()) ==> TimesCover()
      ensures old(w.size) <= segmentSize && REC_HEADER_LEN + |frag| <= segmentSize ==> w.size <= segmentSize
    {
      hide Valid, TimesCover, LiveLog, Idx.Index.Valid, SW.SegmentWriter.Valid;
      if |frag| > MAX_RECORD_LEN {
        return false;
      }
      if MustRoll(w.size, |frag|) {
        ok := Roll();
        if !ok {
          return;
        }
      }
      Write(id, frag, now);
      ok := true;
    }

    /** Append to the active segment and index the record. */
    method Write(id: TraceId, frag: seq<byte>, now: int)
      requires Valid() && SW.IsInt64(now)
      requires |frag| <= MAX_RECORD_LEN && !MustRoll(w.size, |frag|)
      modifies this`segs, idx, w
      ensures Valid()
      ensures LiveLog() == old(LiveLog()) + [Frag(Rec(id, frag), now)]
      ensures old(TimesCover()) ==> TimesCover()
      ensures w.size == old(w.size) + REC_HEADER_LEN + |frag|
    {
      hide Rep, Log, Directory, MetasCover, Bounded, LiveFrom, Idx.Index.Valid;
      ghost var f := Frag(Rec(id, frag), now);
      AppendKeepsRep(crc, idx.Contents(), segs, readers, metas, finalizedBytes, minGen, oldest, w.gen, f);
      if TimesCover() {
        AppendKeepsCover(segs, metas, oldest, w.gen, f);
      }
      var off := w.Append(id, frag, now);
      idx.Put(id, Spot(w.gen, off, LenU32(|frag|)));
      segs := segs[w.gen := Seg(segs, w.gen) + [f]];
    }

    /** The finalized segment with the lowest generation, if any. */
    method OldestFinalized() returns (gen: nat, meta: Meta, found: bool)
      requires Valid()
      ensures found <==> oldest < w.gen
      ensures found ==> gen == oldest && gen in metas && meta == metas[gen]
    {
      hide Rep, Idx.Index.Valid, SW.SegmentWriter.Valid;
      RepKeys(crc, idx.Contents(), segs, readers, metas, finalizedBytes, minGen, oldest, w.gen);
      gen, meta, found := LowestGen(metas);
      assert oldest < w.gen ==> oldest in metas;
    }

    /** Unlink a finalized segment and forget it; nothing changes when the removal fails. */
    method RemoveSegment(gen: nat, removable: nat -> bool) returns (ok: bool)
      requires Valid()
      requires gen == oldest < w.gen
      modifies this`readers, this`metas, this`finalizedBytes, this`minGen, this`segs, this`oldest
      ensures Valid()
      ensures ok <==> removable(gen)
      ensures gen in old(metas)
      ensures !ok ==> LiveLog() == old(LiveLog()) && Disk() == old(Disk()) && oldest == old(oldest) && metas == old(metas) && TimesCover() == old(TimesCover())
      ensures ok ==> old(LiveLog()) == Seg(old(segs), gen) + LiveLog() && Disk() == old(Disk()) - old(metas)[gen].size
      ensures ok ==> oldest == gen + 1 && metas == old(metas) - {gen} && readers == old(readers) - {gen}
      ensures gen in old(readers) && old(metas)[gen].size == |old(readers)[gen]|
      ensures !ok ==> readers == old(readers)
      ensures old(TimesCover()) ==> TimesCover()
      ensures ok && old(TimesCover()) ==> forall i :: 0 <= i < |Seg(old(segs), gen)| ==> Seg(old(segs), gen)[i].stamp <= old(metas)[gen].tMax
    {
      hide Rep, Idx.Index.Valid, SW.SegmentWriter.Valid, SW.SegmentWriter.TimesCover, MetasCover, LiveFrom;
      DropKeepsRep(crc, idx.Contents(), segs, readers, metas, finalizedBytes, minGen, oldest, w.gen);
      OldestFileSize(crc, idx.Contents(), segs, readers, metas, finalizedBytes, minGen, oldest, w.gen);
      if TimesCover() {
        DropKeepsCover(segs, metas, oldest, w.gen);
        CoverAt(segs, metas, oldest, w.gen, gen);
      }
      if !removable(gen) {
        return false;
      }
      readers := readers - {gen};
      finalizedBytes := finalizedBytes - metas[gen].size;
      metas := metas - {gen};
      minGen := gen + 1;
      segs := segs - {gen};
      oldest := gen + 1;
      ok := true;
    }

    /** Delete the oldest finalized segment if it is older than the cutoff and can be removed. */
    method DeleteIfExpired(cutoff: int, removable: nat -> bool) returns (freed: int, deleted: bool, ghost n: nat)
      requires Valid()
      modifies this`readers, this`metas, this`finalizedBytes, this`minGen, this`segs, this`oldest
      ensures Valid() && oldest <= w.gen
      ensures freed == old(Disk()) - Disk()
      ensures n <= |old(LiveLog())| && LiveLog() == old(LiveLog())[n..]
      ensures old(TimesCover()) ==> TimesCover() && AllBefore(old(LiveLog())[..n], cutoff)
      ensures deleted ==> oldest == old(oldest) + 1 && old(oldest) in old(readers)
      ensures deleted ==> ExpiredRun(old(metas), old(oldest), oldest, cutoff, removable)
      ensures SameMetas(old(metas), metas, oldest, w.gen)
      ensures deleted ==> freed == |old(readers)[old(oldest)]| && readers == old(readers) - {old(oldest)}
      ensures !deleted ==> n == 0 && freed == 0 && oldest == old(oldest) && readers == old(readers)
      ensures !deleted && oldest < w.gen ==> Stays(metas, oldest, cutoff, removable)
    {
      hide Rep, Idx.Index.Valid, SW.SegmentWriter.Valid, TimesCover, LiveFrom;
      var gen, meta, found := OldestFinalized();
      RepKeys(crc, idx.Contents(), segs, readers, metas, finalizedBytes, minGen, oldest, w.gen);
      if !found || meta.tMax >= cutoff {
        return 0, false, 0;
      }
      ghost var before, fs := LiveLog(), Seg(segs, gen);
      deleted := RemoveSegment(gen, removable);
      if !deleted {
        return 0, false, 0;
      }
      assert before[|fs|..] == LiveLog() && before[..|fs|] == fs;
      freed, n := meta.size, |fs|;
    }

    /** Delete every finalized segment older than the cutoff, oldest first, until a removal fails. */
    method DeleteExpired(cutoff: int, removable: nat -> bool) returns (freed: int, ghost n: nat)
      requires Valid()
      modifies this`readers, this`metas, this`finalizedBytes, this`minGen, this`segs, this`oldest
      ensures Valid()
      ensures old(oldest) <= oldest && freed == old(Disk()) - Disk() == FileSum(old(readers), old(oldest), oldest)
      ensures n <= |old(LiveLog())| && LiveLog() == old(LiveLog())[n..]
      ensures old(TimesCover()) ==> TimesCover() && AllBefore(old(LiveLog())[..n], cutoff)
      ensures ExpiredRun(old(metas), old(oldest), oldest, cutoff, removable) && SameMetas(old(metas), metas, oldest, w.gen)
      ensures oldest <= w.gen && (oldest < w.gen ==> Stays(metas, oldest, cutoff, removable))
    {
      hide Valid, TimesCover, LiveLog, AllBefore, Stays, Disk;
      assert oldest <= w.gen && SameMetas(metas, metas, oldest, w.gen) by { AllRecorded(); }
      freed, n := 0, 0;
      NoneBefore(LiveLog()[..0], cutoff);
      var more := true;
      while more
        invariant Valid()
        invariant old(oldest) <= oldest && freed == old(Disk()) - Disk() == FileSum(old(readers), old(oldest), oldest)
        invariant forall g :: g in readers ==> g in old(readers) && readers[g] == old(readers)[g]
        invariant n <= |old(LiveLog())| && LiveLog() == old(LiveLog())[n..]
        invariant old(TimesCover()) ==> TimesCover() && AllBefore(old(LiveLog())[..n], cutoff)
        invariant ExpiredRun(old(metas), old(oldest), oldest, cutoff, removable) && SameMetas(old(metas), metas, oldest, w.gen)
        invariant oldest <= w.gen && (!more && oldest < w.gen ==> Stays(metas, oldest, cutoff, removable))
        decreases more, w.gen - oldest
      {
        var size;
        ghost var k;
        FileSumLast(old(readers), old(oldest), oldest);
        size, more, k := DeleteIfExpired(cutoff, removable);
        AllBeforeMore(old(LiveLog()), n, k, cutoff);
        n := n + k;
        freed := freed + size;
      }
    }

    /** Roll a nonempty active segment that ended before the cutoff, so that it can be deleted later. */
    method RollIfStale(cutoff: int)
      requires Valid()
      modifies this`w, this`readers, this`metas, this`finalizedBytes, this`segs
      ensures Valid() && LiveLog() == old(LiveLog())
      ensures old(TimesCover()) ==> TimesCover()
      ensures w.gen == old(w.gen) + if old(w.size) > 0 && old(w.tMax) < cutoff && old(w.tMin) >= 0 && old(w.tMax) >= 0 then 1 else 0
      ensures if w.gen == old(w.gen) then w == old(w) && metas == old(metas)
              else w.size == 0 && old(w.gen) in metas && metas == old(metas)[old(w.gen) := metas[old(w.gen)]] && metas[old(w.gen)].tMax == old(w.tMax)
    {
      hide Valid, TimesCover, LiveLog;
      if w.size > 0 && w.tMax < cutoff {
        var rolled := Roll();
      }
    }

    /** Sweep the next part of the index for traces with nothing retained. */
    method SweepIndex(arenaCap: nat)
      requires Valid()
      modifies idx
      ensures Valid()
      ensures |idx.slots| == old(|idx.slots|) > 0 && idx.cursor == Idx.Window(old(idx.cursor), sweepChunk, |idx.slots|)
      ensures Idx.CleanWindow(idx, old(idx.cursor), sweepChunk, minGen)
    {
      hide Rep, Idx.Index.Valid, SW.SegmentWriter.Valid, Idx.DeadAt, Idx.Window;
      ghost var contents := idx.Contents();
      ghost var swept := idx.Sweep(sweepChunk, minGen, arenaCap);
      SweepKeepsRep(crc, contents, swept, segs, readers, metas, finalizedBytes, minGen, oldest, w.gen);
    }

    /**
     Retention: delete every leading segment the window has passed and that can be
     removed, roll a stale active segment so the next call can delete it, and
     sweep part of the index.
     */
    method Expire(now: int, removable: nat -> bool, arenaCap: nat) returns (freed: int, ghost n: nat)
      requires Valid()
      modifies this, idx
      ensures Valid()
      ensures old(oldest) <= oldest && freed == FileSum(old(readers), old(oldest), oldest)
      ensures n <= |old(LiveLog())| && LiveLog() == old(LiveLog())[n..]
      ensures old(TimesCover()) ==> TimesCover() && AllBefore(old(LiveLog())[..n], now - window)
      ensures ExpiredRun(old(metas), old(oldest), oldest, now - window, removable) && SameMetas(old(metas), metas, oldest, old(w.gen))
      ensures oldest <= old(w.gen) && (oldest < old(w.gen) ==> Stays(metas, oldest, now - window, removable))
      ensures w.gen == old(w.gen) + if old(w.size) > 0 && old(w.tMax) < now - window && old(w.tMin) >= 0 && old(w.tMax) >= 0 then 1 else 0
      ensures if w.gen == old(w.gen) then w == old(w)
              else w.size == 0 && old(w.gen) in metas && metas[old(w.gen)].tMax == old(w.tMax)
      ensures |idx.slots| == old(|idx.slots|) > 0 && idx.cursor == Idx.Window(old(idx.cursor), sweepChunk, |idx.slots|)
      ensures Idx.CleanWindow(idx, old(idx.cursor), sweepChunk, minGen)
    {
      hide Valid, TimesCover, LiveLog, AllBefore, FileSum, Idx.Window, Idx.CleanWindow;
      var cutoff := now - window;
      freed, n := DeleteExpired(cutoff, removable);
      RollIfStale(cutoff);
      SweepIndex(arenaCap);
    }

    /** Force out the oldest finalized segment, whatever its age. */
    method ExpireOldest(removable: nat -> bool) returns (freed: int, ok: bool, ghost n: nat)
      requires Valid()
      modifies this`readers, this`metas, this`finalizedBytes, this`minGen, this`segs, this`oldest
      ensures Valid()
      ensures ok <==> old(oldest) < w.gen && removable(old(oldest))
      ensures freed == old(Disk()) - Disk()
      ensures n <= |old(LiveLog())| && LiveLog() == old(LiveLog())[n..]
      ensures !ok ==> freed == 0 && n == 0 && oldest == old(oldest) && metas == old(metas)
      ensures ok ==> old(oldest) in old(metas) && oldest == old(oldest) + 1 && metas == old(metas) - {old(oldest)}
      ensures ok ==> old(oldest) in old(readers) && freed == |old(readers)[old(oldest)]|
      ensures readers == if ok then old(readers) - {old(oldest)} else old(readers)
      ensures old(TimesCover()) ==> TimesCover() && (ok ==> AllBefore(old(LiveLog())[..n], old(metas)[old(oldest)].tMax + 1))
    {
      hide Rep, Idx.Index.Valid, SW.SegmentWriter.Valid, TimesCover, LiveFrom;
      var gen, meta, found := OldestFinalized();
      if !found {
        return 0, false, 0;
      }
      ghost var before, fs := LiveLog(), Seg(segs, gen);
      ok := RemoveSegment(gen, removable);
      if !ok {
        return 0, false, 0;
      }
      assert before[|fs|..] == LiveLog() && before[..|fs|] == fs;
      freed, n := meta.size, |fs|;
    }

    /** The bytes of every segment file, the active one included. */
    method DiskBytes() returns (n: int)
      requires Valid()
      ensures n == FileSum(Files(), oldest, w.gen + 1) == Disk()
    {
      hide Rep, Idx.Index.Valid;
      DiskIsFiles(crc, idx.Contents(), segs, readers, metas, finalizedBytes, minGen, oldest, w.gen, w.bytes);
      n := finalizedBytes + w.size;
    }

    /** The newest stamp of the oldest finalized segment. */
    method OldestFinalizedTMax() returns (tMax: int, found: bool)
      requires Valid()
      ensures found <==> oldest < w.gen
      ensures found ==> oldest in metas && tMax == metas[oldest].tMax
    {
      var gen, meta;
      gen, meta, found := OldestFinalized();
      tMax := meta.tMax;
    }

    /** The files as a reader sees them: the active segment is flushed before it is read. */
    ghost function Files(): (files: map<nat, seq<byte>>)
      reads this, w
    {
      readers[w.gen := w.bytes]
    }

    /** The retained locations of a trace read back as its retained fragments. */
    lemma RetainedReads(id: TraceId)
      requires Valid()
      ensures AllRead(crc, Files(), FilterGen(SpotsFor(idx.Contents(), id), minGen), id, OfTrace(LiveLog(), id))
    {
      hide Rep, Idx.Index.Valid, FilterGen, OfTrace, AllRead, Bounded, Log, LiveFrom;
      RepReads(crc, idx.Contents(), segs, readers, metas, finalizedBytes, minGen, oldest, w.gen, w.bytes, id);
    }

    /** Read one location: `found` is false without a reader, `intact` false on a checksum mismatch. */
    method ReadSpot(l: Spot, ghost id: TraceId, ghost want: seq<byte>) returns (payload: seq<byte>, found: bool, intact: bool)
      requires l.gen in Files() && RecordAt(crc, Files()[l.gen], l, id, want)
      ensures found && intact && payload == want
    {
      var file;
      if l.gen != w.gen {
        if l.gen !in readers {
          return [], false, false;
        }
        file := readers[l.gen];
      } else {
        file := w.bytes;
      }
      var buf := file[l.off..l.off + REC_HEADER_LEN + l.length];
      ReadBack(crc, buf, id, want);
      payload := buf[REC_HEADER_LEN..];
      found, intact := true, crc(payload) as nat == FromLittleEndian(buf[20..24]);
    }

    /**
     Visit every retained fragment of `id`, in append order, reading each from
     its segment file. Never skips one as corrupt and never misses a reader.
     */
    method Collect(id: TraceId) returns (frags: seq<seq<byte>>, skipped: int, ok: bool)
      requires Valid()
      ensures ok && skipped == 0
      ensures frags == OfTrace(LiveLog(), id)
    {
      hide Valid, Idx.Index.Valid, LiveLog, OfTrace, FilterGen, AllRead, RecordAt, SpotsFor;
      frags, skipped := [], 0;
      ghost var spots, want := SpotsFor(idx.Contents(), id), OfTrace(LiveLog(), id);
      RetainedReads(id);
      FilterEnds(spots, minGen);
      AllReadLength(crc, Files(), FilterGen(spots, minGen), id, want);
      IndexValid();
      var i := idx.Head(id);
      ghost var chain, k := idx.ChainOf(id), 0;
      idx.ChainLength(id);
      SpotsLength(idx.Contents(), id);
      while i >= 0
        invariant k <= |chain| == |spots|
        invariant i == if k < |chain| then chain[k] else -1
        invariant skipped == 0
        invariant |FilterGen(spots[..k], minGen)| <= |want|
        invariant frags == want[..|FilterGen(spots[..k], minGen)|]
        decreases |chain| - k
      {
        idx.ChainStep(id, k);
        SpotsAt(idx.Contents(), id, k);
        FilterNext(spots, k, minGen);
        var node := idx.At(i);
        if node.spot.gen >= minGen {
          ghost var t := |FilterGen(spots[..k], minGen)|;
          ReadableAt(crc, Files(), spots, id, want, minGen, k);
          var payload, found, intact := ReadSpot(node.spot, id, want[t]);
          if !found {
            return frags, skipped, false;
          }
          if intact {
            frags := frags + [payload];
          } else {
            skipped := skipped + 1;
          }
        }
        i := node.next;
        k := k + 1;
      }
      ok := true;
    }

    /** Flush and close: what stays on disk, by generation. No footer is written for the active segment. */
    method Close() returns (disk: map<nat, seq<byte>>)
      ensures disk == Files()
    {
      disk := readers[w.gen := w.bytes];
    }

    lemma IndexValid()
      requires Valid()
      ensures idx.Valid()
    {
    }

    /** Every finalized segment has its time range on record. */
    lemma AllRecorded()
      requires Valid()
      ensures oldest <= w.gen && forall g :: g in metas <==> oldest <= g < w.gen
    {
      hide Rep, Idx.Index.Valid, SW.SegmentWriter.Valid;
      RepKeys(crc, idx.Contents(), segs, readers, metas, finalizedBytes, minGen, oldest, w.gen);
    }

    /** An empty active segment and no finalized one: nothing is retained. */
    lemma EmptyMeansNothingRetained()
      requires Valid() && oldest == w.gen && w.size == 0
      ensures LiveLog() == []
    {
      hide Rep, Idx.Index.Valid, Log;
      w.EmptySegment();
      LiveOfOne(segs, w.gen, 0);
    }
  }

  lemma SpotsLength(contents: map<TraceId, seq<Spot>>, id: TraceId)
    ensures |SpotsFor(contents, id)| == if id in contents then |contents[id]| else 0
  {
  }

  lemma SpotsAt(contents: map<TraceId, seq<Spot>>, id: TraceId, k: nat)
    requires id in contents && k < |contents[id]|
    ensures k < |SpotsFor(contents, id)| && SpotsFor(contents, id)[k] == contents[id][k]
  {
  }

  lemma AllReadLength(crc: Checksum, files: map<nat, seq<byte>>, sp: seq<Spot>, id: TraceId, ps: seq<seq<byte>>)
    requires AllRead(crc, files, sp, id, ps)
    ensures |sp| == |ps|
  {
  }

  lemma FilterEnds(sp: seq<Spot>, m: nat)
    ensures FilterGen(sp[..0], m) == []
    ensures FilterGen(sp[..|sp|], m) == FilterGen(sp, m)
  {
    assert sp[..|sp|] == sp;
  }

  lemma FilterNext(sp: seq<Spot>, k: nat, m: nat)
    requires k < |sp|
    ensures FilterGen(sp[..k + 1], m) == FilterGen(sp[..k], m) + (if sp[k].gen >= m then [sp[k]] else [])
    ensures FilterGen(sp[..k + 1], m) <= FilterGen(sp, m)
  {
    assert sp[..k + 1][..k] == sp[..k];
    assert sp == sp[..k + 1] + sp[k + 1..];
    FilterConcat(sp[..k + 1], sp[k + 1..], m);
  }

  /** The `k`-th location, when retained, is readable and holds the next payload owed. */
  lemma ReadableAt(crc: Checksum, files: map<nat, seq<byte>>, sp: seq<Spot>, id: TraceId, want: seq<seq<byte>>, m: nat, k: nat)
    requires AllRead(crc, files, FilterGen(sp, m), id, want)
    requires k < |sp| && sp[k].gen >= m
    ensures |FilterGen(sp[..k], m)| < |want|
    ensures |FilterGen(sp[..k + 1], m)| == |FilterGen(sp[..k], m)| + 1
    ensures sp[k].gen in files && RecordAt(crc, files[sp[k].gen], sp[k], id, want[|FilterGen(sp[..k], m)|])
  {
    hide FilterGen, RecordAt;
    FilterNext(sp, k, m);
    var t := |FilterGen(sp[..k], m)|;
    assert FilterGen(sp, m)[t] == FilterGen(sp[..k + 1], m)[t] == sp[k];
  }

  /** A stored record parses back to its own checksum and payload. */
  lemma ReadBack(crc: Checksum, buf: seq<byte>, id: TraceId, payload: seq<byte>)
    requires |payload| <= MAX_RECORD_LEN
    requires buf == RecordBytes(crc, Rec(id, payload))
    ensures buf[REC_HEADER_LEN..] == payload
    ensures FromLittleEndian(buf[20..24]) == crc(payload) as nat
  {
    var r := Rec(id, payload);
    RecordHeaderRoundTrip(crc, r);
    assert buf[20..24] == RecordHeader(crc, r)[20..24];
  }

  /** Every one of these fragments was stamped before the cutoff. */
  ghost predicate AllBefore(fs: seq<Frag>, cutoff: int) {
    forall i :: 0 <= i < |fs| ==> fs[i].stamp < cutoff
  }

  lemma NoneBefore(fs: seq<Frag>, cutoff: int)
    requires fs == []
    ensures AllBefore(fs, cutoff)
  {
  }

  /** Two successive drops off the front are one. */
  lemma AllBeforeWeaken(fs: seq<Frag>, cutoff: int, later: int)
    requires AllBefore(fs, cutoff) && cutoff <= later
    ensures AllBefore(fs, later)
  {
  }

  /** `rest` is `log` without its first `n` fragments, which were all stamped before the cutoff if the times are covered. */
  ghost predicate Drops(log: seq<Frag>, rest: seq<Frag>, n: nat, cutoff: int, covered: bool) {
    && n <= |log| && rest == log[n..]
    && (covered ==> AllBefore(log[..n], cutoff))
  }

  lemma DropsNone(log: seq<Frag>, cutoff: int, covered: bool)
    ensures Drops(log, log, 0, cutoff, covered)
  {
  }

  lemma DropsMore(log: seq<Frag>, mid: seq<Frag>, rest: seq<Frag>, a: nat, b: nat, cutoff: int, covered: bool, still: bool)
    requires Drops(log, mid, a, cutoff, covered) && Drops(mid, rest, b, cutoff, still) && (covered ==> still)
    ensures Drops(log, rest, a + b, cutoff, covered)
  {
    hide AllBefore;
    AllBeforeMore(log, a, b, cutoff);
  }

  lemma AllBeforeMore(log: seq<Frag>, n: nat, k: nat, cutoff: int)
    requires n <= |log| && k <= |log[n..]|
    ensures log[n..][k..] == log[n + k..]
    ensures AllBefore(log[..n], cutoff) && AllBefore(log[n..][..k], cutoff) ==> AllBefore(log[..n + k], cutoff)
  {
    assert log[..n + k] == log[..n] + log[n..][..k];
  }

  lemma CoverAt(segs: Segs, metas: map<nat, Meta>, oldest: nat, gen: nat, g: nat)
    requires MetasCover(segs, metas, oldest, gen)
    requires oldest <= g < gen && g in metas
    ensures forall i :: 0 <= i < |Seg(segs, g)| ==> Seg(segs, g)[i].stamp <= metas[g].tMax
  {
  }
}
