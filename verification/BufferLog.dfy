/**
 What a buffer stands for: the plain list of fragments still retained, grouped
 by segment generation, and how the trace index's locations relate to it.
 */
module BufferLog {
  import opened Types
  import opened Bytes
  import opened Segment
  import opened IndexArena
  import Idx = Index

  /** An appended fragment and the stamp it was appended with. */
  datatype Frag = Frag(rec: Rec, stamp: int)

  type Segs = map<nat, seq<Frag>>

  /** No segment outgrows this, so offsets and lengths fit 32 bits. */
  const MAX_SEGMENT: nat := 1073741824

  function Recs(fs: seq<Frag>): (rs: seq<Rec>)
    ensures |rs| == |fs|
    ensures forall i :: 0 <= i < |fs| ==> rs[i] == fs[i].rec
  {
    seq(|fs|, i requires 0 <= i < |fs| => fs[i].rec)
  }

  function Seg(segs: Segs, g: nat): (fs: seq<Frag>) {
    if g in segs then segs[g] else []
  }

  /** All retained fragments of generations `[g, hi]`, in append order. */
  function LiveFrom(segs: Segs, g: nat, hi: nat): (fs: seq<Frag>)
    decreases hi + 1 - g
  {
    if g > hi then [] else Seg(segs, g) + LiveFrom(segs, g + 1, hi)
  }

  /** The payloads of one trace, in order. */
  function OfTrace(fs: seq<Frag>, id: TraceId): (ps: seq<seq<byte>>) {
    if fs == [] then [] else
      OfTrace(fs[..|fs| - 1], id) + (if fs[|fs| - 1].rec.id == id then [fs[|fs| - 1].rec.frag] else [])
  }

  /** Where segment `g` holding `recs` keeps the fragments of `id`. */
  function SegSpots(g: nat, recs: seq<Rec>, id: TraceId): (sp: seq<Spot>)
    ensures forall i :: 0 <= i < |sp| ==> sp[i].gen == g
  {
    if recs == [] then [] else
      var init, r := recs[..|recs| - 1], recs[|recs| - 1];
      SegSpots(g, init, id) + (if r.id == id then [SpotOf(g, init, r)] else [])
  }

  /** The location of a record appended to segment `g` behind `before`. */
  function SpotOf(g: nat, before: seq<Rec>, r: Rec): (s: Spot) {
    Spot(g, LenU32(LogSize(before)), LenU32(|r.frag|))
  }

  function LiveSpots(segs: Segs, g: nat, hi: nat, id: TraceId): (sp: seq<Spot>)
    ensures forall i :: 0 <= i < |sp| ==> g <= sp[i].gen <= hi
    decreases hi + 1 - g
  {
    if g > hi then [] else SegSpots(g, Recs(Seg(segs, g)), id) + LiveSpots(segs, g + 1, hi, id)
  }

  /** The locations of generation `m` or later. */
  function FilterGen(sp: seq<Spot>, m: nat): (r: seq<Spot>)
    ensures forall i :: 0 <= i < |r| ==> r[i].gen >= m
  {
    if sp == [] then [] else
      FilterGen(sp[..|sp| - 1], m) + (if sp[|sp| - 1].gen >= m then [sp[|sp| - 1]] else [])
  }

  lemma {:induction false} OfTraceConcat(a: seq<Frag>, b: seq<Frag>, id: TraceId)
    ensures OfTrace(a + b, id) == OfTrace(a, id) + OfTrace(b, id)
  {
    if b == [] {
      assert a + b == a;
    } else {
      var init := b[..|b| - 1];
      assert (a + b)[..|a + b| - 1] == a + init;
      OfTraceConcat(a, init, id);
    }
  }

  lemma {:induction false} FilterConcat(a: seq<Spot>, b: seq<Spot>, m: nat)
    ensures FilterGen(a + b, m) == FilterGen(a, m) + FilterGen(b, m)
  {
    if b == [] {
      assert a + b == a;
    } else {
      var init := b[..|b| - 1];
      assert (a + b)[..|a + b| - 1] == a + init;
      FilterConcat(a, init, m);
    }
  }

  lemma {:induction false} FilterAll(sp: seq<Spot>, m: nat)
    requires forall i :: 0 <= i < |sp| ==> sp[i].gen >= m
    ensures FilterGen(sp, m) == sp
  {
    if sp != [] {
      FilterAll(sp[..|sp| - 1], m);
    }
  }

  lemma {:induction false} FilterNone(sp: seq<Spot>, m: nat)
    requires forall i :: 0 <= i < |sp| ==> sp[i].gen < m
    ensures FilterGen(sp, m) == []
  {
    if sp != [] {
      FilterNone(sp[..|sp| - 1], m);
    }
  }

  lemma {:induction false} FilterTwice(sp: seq<Spot>, m: nat, n: nat)
    requires m <= n
    ensures FilterGen(FilterGen(sp, m), n) == FilterGen(sp, n)
  {
    if sp != [] {
      var init, s := sp[..|sp| - 1], sp[|sp| - 1];
      FilterTwice(init, m, n);
      var last := if s.gen >= m then [s] else [];
      FilterConcat(FilterGen(init, m), last, n);
      if s.gen >= n {
        assert FilterGen([s], n) == [s] by { assert [s][..0] == []; }
      } else {
        FilterNone(last, n);
      }
    }
  }

  // ------------------------------------------------- index against log

  function SpotsFor(contents: map<TraceId, seq<Spot>>, id: TraceId): (sp: seq<Spot>) {
    if id in contents then contents[id] else []
  }

  /** Locations come in generation order, none newer than `hi`. */
  ghost predicate GensOrdered(sp: seq<Spot>, hi: nat) {
    && (forall i :: 0 <= i < |sp| ==> sp[i].gen <= hi)
    && (forall i, j :: 0 <= i < j < |sp| ==> sp[i].gen <= sp[j].gen)
  }

  /** The index, dead locations ignored, lists exactly the retained fragments. */
  ghost predicate IndexOk(contents: map<TraceId, seq<Spot>>, segs: Segs, minGen: nat, oldest: nat, hi: nat) {
    && minGen <= oldest <= hi
    && (forall id :: TraceOk(SpotsFor(contents, id), segs, minGen, oldest, hi, id))
  }

  ghost predicate TraceOk(sp: seq<Spot>, segs: Segs, minGen: nat, oldest: nat, hi: nat, id: TraceId) {
    FilterGen(sp, minGen) == LiveSpots(segs, oldest, hi, id) && GensOrdered(sp, hi)
  }

  lemma {:induction false} LiveSpotsFrame(segs: Segs, segs': Segs, g: nat, hi: nat, id: TraceId)
    requires forall x :: g <= x <= hi ==> Seg(segs', x) == Seg(segs, x)
    ensures LiveSpots(segs', g, hi, id) == LiveSpots(segs, g, hi, id)
    ensures LiveFrom(segs', g, hi) == LiveFrom(segs, g, hi)
    decreases hi + 1 - g
  {
    if g <= hi {
      LiveSpotsFrame(segs, segs', g + 1, hi, id);
    }
  }

  lemma LiveOfOne(segs: Segs, hi: nat, id: TraceId)
    ensures LiveFrom(segs, hi, hi) == Seg(segs, hi)
    ensures LiveSpots(segs, hi, hi, id) == SegSpots(hi, Recs(Seg(segs, hi)), id)
  {
    assert LiveFrom(segs, hi + 1, hi) == [];
    assert LiveSpots(segs, hi + 1, hi, id) == [];
  }

  lemma SegSpotsAppend(g: nat, fs: seq<Frag>, f: Frag, id: TraceId)
    ensures SegSpots(g, Recs(fs + [f]), id) == SegSpots(g, Recs(fs), id) + (if f.rec.id == id then [SpotOf(g, Recs(fs), f.rec)] else [])
  {
    assert Recs(fs + [f]) == Recs(fs) + [f.rec];
    assert (Recs(fs) + [f.rec])[..|fs|] == Recs(fs);
  }

  /** Appending to the newest segment appends to the list, and to one trace's locations. */
  lemma {:induction false} LiveAppend(segs: Segs, g: nat, hi: nat, f: Frag, id: TraceId)
    requires g <= hi
    ensures var segs' := segs[hi := Seg(segs, hi) + [f]];
            && LiveFrom(segs', g, hi) == LiveFrom(segs, g, hi) + [f]
            && LiveSpots(segs', g, hi, id) == LiveSpots(segs, g, hi, id)
                 + (if f.rec.id == id then [SpotOf(hi, Recs(Seg(segs, hi)), f.rec)] else [])
    decreases hi - g
  {
    hide SegSpots;
    var segs' := segs[hi := Seg(segs, hi) + [f]];
    if g == hi {
      LiveOfOne(segs, hi, id);
      LiveOfOne(segs', hi, id);
      SegSpotsAppend(hi, Seg(segs, hi), f, id);
    } else {
      LiveAppend(segs, g + 1, hi, f, id);
      assert Seg(segs', g) == Seg(segs, g);
    }
  }

  /** Opening an empty newer segment changes nothing observable. */
  lemma {:induction false} LiveRoll(segs: Segs, g: nat, hi: nat, id: TraceId)
    requires g <= hi + 1
    ensures LiveFrom(segs[hi + 1 := []], g, hi + 1) == LiveFrom(segs, g, hi)
    ensures LiveSpots(segs[hi + 1 := []], g, hi + 1, id) == LiveSpots(segs, g, hi, id)
    decreases hi + 1 - g
  {
    var segs' := segs[hi + 1 := []];
    if g == hi + 1 {
      assert Recs([]) == [];
      assert LiveSpots(segs', hi + 2, hi + 1, id) == [];
      assert LiveFrom(segs', hi + 2, hi + 1) == [];
    } else {
      LiveRoll(segs, g + 1, hi, id);
      assert Seg(segs', g) == Seg(segs, g);
    }
  }

  lemma PutKeepsTrace(sp: seq<Spot>, segs: Segs, minGen: nat, oldest: nat, hi: nat, f: Frag, id: TraceId)
    requires minGen <= oldest <= hi
    requires TraceOk(sp, segs, minGen, oldest, hi, id)
    ensures TraceOk(if f.rec.id == id then sp + [SpotOf(hi, Recs(Seg(segs, hi)), f.rec)] else sp,
                    segs[hi := Seg(segs, hi) + [f]], minGen, oldest, hi, id)
  {
    hide LiveSpots, FilterGen;
    var spot := SpotOf(hi, Recs(Seg(segs, hi)), f.rec);
    LiveAppend(segs, oldest, hi, f, id);
    FilterConcat(sp, [spot], minGen);
    FilterAll([spot], minGen);
  }

  lemma PutKeepsIndex(contents: map<TraceId, seq<Spot>>, segs: Segs, minGen: nat, oldest: nat, hi: nat, f: Frag)
    requires IndexOk(contents, segs, minGen, oldest, hi)
    ensures var spot := SpotOf(hi, Recs(Seg(segs, hi)), f.rec);
            IndexOk(contents[f.rec.id := SpotsFor(contents, f.rec.id) + [spot]], segs[hi := Seg(segs, hi) + [f]], minGen, oldest, hi)
  {
    hide TraceOk;
    var spot := SpotOf(hi, Recs(Seg(segs, hi)), f.rec);
    var contents' := contents[f.rec.id := SpotsFor(contents, f.rec.id) + [spot]];
    forall id
      ensures TraceOk(SpotsFor(contents', id), segs[hi := Seg(segs, hi) + [f]], minGen, oldest, hi, id)
    {
      assert TraceOk(SpotsFor(contents, id), segs, minGen, oldest, hi, id);
      PutKeepsTrace(SpotsFor(contents, id), segs, minGen, oldest, hi, f, id);
    }
  }

  lemma RollKeepsIndex(contents: map<TraceId, seq<Spot>>, segs: Segs, minGen: nat, oldest: nat, hi: nat)
    requires IndexOk(contents, segs, minGen, oldest, hi)
    ensures IndexOk(contents, segs[hi + 1 := []], minGen, oldest, hi + 1)
  {
    forall id
      ensures TraceOk(SpotsFor(contents, id), segs[hi + 1 := []], minGen, oldest, hi + 1, id)
    {
      LiveRoll(segs, oldest, hi, id);
      assert TraceOk(SpotsFor(contents, id), segs, minGen, oldest, hi, id);
    }
  }

  lemma LiveSplit(segs: Segs, g: nat, hi: nat, id: TraceId)
    requires g <= hi
    ensures LiveSpots(segs, g, hi, id) == SegSpots(g, Recs(Seg(segs, g)), id) + LiveSpots(segs, g + 1, hi, id)
    ensures LiveFrom(segs, g, hi) == Seg(segs, g) + LiveFrom(segs, g + 1, hi)
  {
  }

  /** What is left of a trace's locations once segment `g` no longer counts. */
  lemma FilterPast(segs: Segs, g: nat, hi: nat, id: TraceId)
    requires g < hi
    ensures FilterGen(LiveSpots(segs, g, hi, id), g + 1) == LiveSpots(segs, g + 1, hi, id)
  {
    hide LiveSpots, FilterGen, SegSpots;
    var first, later := SegSpots(g, Recs(Seg(segs, g)), id), LiveSpots(segs, g + 1, hi, id);
    LiveSplit(segs, g, hi, id);
    FilterConcat(first, later, g + 1);
    FilterNone(first, g + 1);
    FilterAll(later, g + 1);
    assert [] + later == later;
  }

  lemma DropKeepsTrace(sp: seq<Spot>, segs: Segs, minGen: nat, oldest: nat, hi: nat, id: TraceId)
    requires minGen <= oldest < hi
    requires TraceOk(sp, segs, minGen, oldest, hi, id)
    ensures TraceOk(sp, segs - {oldest}, oldest + 1, oldest + 1, hi, id)
  {
    hide LiveSpots, FilterGen, GensOrdered, LiveFrom;
    FilterTwice(sp, minGen, oldest + 1);
    FilterPast(segs, oldest, hi, id);
    LiveSpotsFrame(segs, segs - {oldest}, oldest + 1, hi, id);
  }

  /** Dropping the oldest segment and moving the boundary past it. */
  lemma DropKeepsIndex(contents: map<TraceId, seq<Spot>>, segs: Segs, minGen: nat, oldest: nat, hi: nat)
    requires IndexOk(contents, segs, minGen, oldest, hi)
    requires oldest < hi
    ensures IndexOk(contents, segs - {oldest}, oldest + 1, oldest + 1, hi)
  {
    hide TraceOk;
    forall id
      ensures TraceOk(SpotsFor(contents, id), segs - {oldest}, oldest + 1, oldest + 1, hi, id)
    {
      assert TraceOk(SpotsFor(contents, id), segs, minGen, oldest, hi, id);
      DropKeepsTrace(SpotsFor(contents, id), segs, minGen, oldest, hi, id);
    }
  }

  /** Sweeping traces whose newest location is dead changes nothing observable. */
  lemma SweepKeepsIndex(contents: map<TraceId, seq<Spot>>, swept: set<TraceId>, segs: Segs, minGen: nat, oldest: nat, hi: nat)
    requires IndexOk(contents, segs, minGen, oldest, hi)
    requires forall id :: id in swept ==> id in contents && contents[id] != [] && Idx.NewestGen(contents[id]) < minGen
    ensures IndexOk(contents - swept, segs, minGen, oldest, hi)
  {
    forall id
      ensures TraceOk(SpotsFor(contents - swept, id), segs, minGen, oldest, hi, id)
    {
      assert TraceOk(SpotsFor(contents, id), segs, minGen, oldest, hi, id);
      if id in swept {
        FilterNone(contents[id], minGen);
      }
    }
  }

  // ------------------------------------------------- locations against bytes

  /** Reading location `s` of `file` yields a record carrying `payload`. */
  ghost predicate RecordAt(crc: Checksum, file: seq<byte>, s: Spot, id: TraceId, payload: seq<byte>) {
    && s.length == |payload| <= MAX_RECORD_LEN
    && s.off + REC_HEADER_LEN + s.length <= |file|
    && file[s.off..s.off + REC_HEADER_LEN + s.length] == RecordBytes(crc, Rec(id, payload))
  }

  /** No record is longer than the limit and the whole log fits 32-bit offsets. */
  ghost predicate Bounded(recs: seq<Rec>) {
    && LogSize(recs) <= MAX_SEGMENT
    && (forall i :: 0 <= i < |recs| ==> |recs[i].frag| <= MAX_RECORD_LEN)
  }

  /** Every location a segment lists reads back as the fragment it was made for. */
  lemma {:induction false} SegSpotsRead(crc: Checksum, g: nat, fs: seq<Frag>, whole: seq<Rec>, id: TraceId, file: seq<byte>)
    requires Bounded(whole) && Log(crc, whole) <= file
    requires Recs(fs) <= whole
    ensures var sp, ps := SegSpots(g, Recs(fs), id), OfTrace(fs, id);
            |sp| == |ps| && forall t :: 0 <= t < |sp| ==> RecordAt(crc, file, sp[t], id, ps[t])
  {
    if fs != [] {
      hide Log, RecordAt, Bounded, SegSpots, OfTrace;
      var n := |fs| - 1;
      var init := fs[..n];
      assert Recs(init) == Recs(fs)[..n] == whole[..n];
      assert Recs(fs)[n] == whole[n];
      SegSpotsRead(crc, g, init, whole, id, file);
      SpotReads(crc, g, whole, n, file);
      LastSpot(g, fs, id);
    } else {
      NoSpots(g, fs, id);
    }
  }

  lemma LastSpot(g: nat, fs: seq<Frag>, id: TraceId)
    requires fs != []
    ensures var n := |fs| - 1;
            var mine := Recs(fs)[n].id == id;
            && SegSpots(g, Recs(fs), id) == SegSpots(g, Recs(fs[..n]), id) + (if mine then [SpotOf(g, Recs(fs[..n]), Recs(fs)[n])] else [])
            && OfTrace(fs, id) == OfTrace(fs[..n], id) + (if mine then [Recs(fs)[n].frag] else [])
  {
    assert Recs(fs[..|fs| - 1]) == Recs(fs)[..|fs| - 1];
  }

  lemma NoSpots(g: nat, fs: seq<Frag>, id: TraceId)
    requires fs == []
    ensures SegSpots(g, Recs(fs), id) == [] && OfTrace(fs, id) == []
  {
  }

  lemma SpotReads(crc: Checksum, g: nat, whole: seq<Rec>, n: nat, file: seq<byte>)
    requires Bounded(whole) && Log(crc, whole) <= file && n < |whole|
    ensures RecordAt(crc, file, SpotOf(g, whole[..n], whole[n]), whole[n].id, whole[n].frag)
  {
    hide Log, LogSize, RecordBytes, RecordHeader;
    RecordInLog(crc, whole, n);
    assert whole[n] == Rec(whole[n].id, whole[n].frag);
    SliceOfPrefix(Log(crc, whole), file, LogSize(whole[..n]), LogSize(whole[..n + 1]));
  }

  lemma SliceOfPrefix(a: seq<byte>, b: seq<byte>, lo: nat, hi: nat)
    requires a <= b && lo <= hi <= |a|
    ensures b[lo..hi] == a[lo..hi]
  {
  }

  // ------------------------------------------------------- segment files

  /** A finalized segment's bookkeeping: the time range its footer holds and its file size. */
  datatype Meta = Meta(tMin: int, tMax: int, size: nat)

  /** Segment `g` is finalized: its file is its log, directory and trailer. */
  ghost predicate FinalizedOk(crc: Checksum, fs: seq<Frag>, file: seq<byte>, m: Meta) {
    && Bounded(Recs(fs))
    && 0 <= m.tMin <= MAX_INT64
    && 0 <= m.tMax <= MAX_INT64
    && file == FinalizedFile(crc, Log(crc, Recs(fs)), m.tMin, m.tMax, Directory(Recs(fs)))
    && m.size == |file|
  }

  ghost predicate FilesOk(crc: Checksum, segs: Segs, files: map<nat, seq<byte>>, metas: map<nat, Meta>, oldest: nat, hi: nat) {
    && (forall g :: g in files <==> oldest <= g < hi)
    && (forall g :: g in metas <==> oldest <= g < hi)
    && (forall g :: oldest <= g < hi ==> FinalizedOk(crc, Seg(segs, g), files[g], metas[g]))
  }

  function SizeSum(metas: map<nat, Meta>, lo: nat, hi: nat): (n: nat)
    decreases hi - lo
  {
    if lo >= hi then 0 else (if lo in metas then metas[lo].size else 0) + SizeSum(metas, lo + 1, hi)
  }

  /** The bytes of the segment files of generations `lo` up to, not including, `hi`. */
  function FileSum(files: map<nat, seq<byte>>, lo: nat, hi: nat): (n: nat)
    decreases hi - lo
  {
    if lo >= hi then 0 else (if lo in files then |files[lo]| else 0) + FileSum(files, lo + 1, hi)
  }

  lemma {:induction false} FileSumFrame(files: map<nat, seq<byte>>, files': map<nat, seq<byte>>, lo: nat, hi: nat)
    requires forall g :: lo <= g < hi ==> (g in files <==> g in files') && (g in files ==> files[g] == files'[g])
    ensures FileSum(files, lo, hi) == FileSum(files', lo, hi)
    decreases hi - lo
  {
    if lo < hi {
      FileSumFrame(files, files', lo + 1, hi);
    }
  }

  lemma {:induction false} FileSumLast(files: map<nat, seq<byte>>, lo: nat, hi: nat)
    requires lo <= hi
    ensures FileSum(files, lo, hi + 1) == FileSum(files, lo, hi) + if hi in files then |files[hi]| else 0
    decreases hi - lo
  {
    if lo < hi {
      FileSumLast(files, lo + 1, hi);
    } else {
      assert FileSum(files, hi + 1, hi + 1) == 0;
    }
  }

  /** The recorded sizes of finalized segments are the sizes of their files. */
  lemma {:induction false} SizesAreFiles(crc: Checksum, segs: Segs, files: map<nat, seq<byte>>, metas: map<nat, Meta>, oldest: nat, lo: nat, hi: nat)
    requires FilesOk(crc, segs, files, metas, oldest, hi) && oldest <= lo
    ensures SizeSum(metas, lo, hi) == FileSum(files, lo, hi)
    decreases hi - lo
  {
    if lo < hi {
      SizesAreFiles(crc, segs, files, metas, oldest, lo + 1, hi);
      assert FinalizedOk(crc, Seg(segs, lo), files[lo], metas[lo]);
    }
  }

  lemma {:induction false} SizeSumFrame(metas: map<nat, Meta>, metas': map<nat, Meta>, lo: nat, hi: nat)
    requires forall g :: lo <= g < hi ==> (g in metas <==> g in metas') && (g in metas ==> metas[g] == metas'[g])
    ensures SizeSum(metas, lo, hi) == SizeSum(metas', lo, hi)
    decreases hi - lo
  {
    if lo < hi {
      SizeSumFrame(metas, metas', lo + 1, hi);
    }
  }

  lemma {:induction false} SizeSumPush(metas: map<nat, Meta>, lo: nat, hi: nat, m: Meta)
    requires lo <= hi
    ensures SizeSum(metas[hi := m], lo, hi + 1) == SizeSum(metas, lo, hi) + m.size
    decreases hi - lo
  {
    if lo == hi {
      assert SizeSum(metas[hi := m], hi + 1, hi + 1) == 0;
    } else {
      SizeSumPush(metas, lo + 1, hi, m);
    }
  }

  /** Entries of a bounded log fit the footer's fields. */
  lemma {:induction false} DirectoryFits(recs: seq<Rec>)
    requires Bounded(recs)
    ensures FitsFooter(Directory(recs))
    ensures |recs| * REC_HEADER_LEN <= LogSize(recs)
  {
    if recs != [] {
      DirectoryFits(recs[..|recs| - 1]);
    }
  }

  /** A finalized file's footer reads back as exactly what was recorded. */
  lemma FinalizedReadsBack(crc: Checksum, fs: seq<Frag>, file: seq<byte>, m: Meta)
    requires FinalizedOk(crc, fs, file, m)
    ensures ReadFooter(crc, file) == Some(Footer(m.tMin, m.tMax, Directory(Recs(fs))))
    ensures Log(crc, Recs(fs)) <= file
  {
    DirectoryFits(Recs(fs));
    FooterRoundTrip(crc, Log(crc, Recs(fs)), m.tMin, m.tMax, Directory(Recs(fs)));
  }

  /** Each location, read from its own segment's file, yields the payload beside it. */
  ghost predicate AllRead(crc: Checksum, files: map<nat, seq<byte>>, sp: seq<Spot>, id: TraceId, ps: seq<seq<byte>>) {
    && |sp| == |ps|
    && (forall t :: 0 <= t < |sp| ==> sp[t].gen in files && RecordAt(crc, files[sp[t].gen], sp[t], id, ps[t]))
  }

  lemma AllReadConcat(crc: Checksum, files: map<nat, seq<byte>>, a: seq<Spot>, b: seq<Spot>, id: TraceId, p: seq<seq<byte>>, q: seq<seq<byte>>)
    requires AllRead(crc, files, a, id, p) && AllRead(crc, files, b, id, q)
    ensures AllRead(crc, files, a + b, id, p + q)
  {
    hide RecordAt;
  }

  lemma SegmentReads(crc: Checksum, files: map<nat, seq<byte>>, g: nat, fs: seq<Frag>, id: TraceId)
    requires g in files && Bounded(Recs(fs)) && Log(crc, Recs(fs)) <= files[g]
    ensures AllRead(crc, files, SegSpots(g, Recs(fs), id), id, OfTrace(fs, id))
  {
    SegSpotsRead(crc, g, fs, Recs(fs), id, files[g]);
  }

  /** A retained location, read from its segment's file, yields its fragment. */
  lemma {:induction false} LiveSpotsRead(crc: Checksum, segs: Segs, files: map<nat, seq<byte>>, g: nat, hi: nat, id: TraceId)
    requires forall x :: g <= x <= hi ==> x in files && Bounded(Recs(Seg(segs, x))) && Log(crc, Recs(Seg(segs, x))) <= files[x]
    ensures AllRead(crc, files, LiveSpots(segs, g, hi, id), id, OfTrace(LiveFrom(segs, g, hi), id))
    decreases hi + 1 - g
  {
    if g <= hi {
      hide LiveSpots, LiveFrom, SegSpots, OfTrace, AllRead, Log, Bounded;
      var fs := Seg(segs, g);
      SegmentReads(crc, files, g, fs, id);
      LiveSpotsRead(crc, segs, files, g + 1, hi, id);
      LiveSplit(segs, g, hi, id);
      OfTraceConcat(fs, LiveFrom(segs, g + 1, hi), id);
      AllReadConcat(crc, files, SegSpots(g, Recs(fs), id), LiveSpots(segs, g + 1, hi, id), id,
                    OfTrace(fs, id), OfTrace(LiveFrom(segs, g + 1, hi), id));
    }
  }
}
