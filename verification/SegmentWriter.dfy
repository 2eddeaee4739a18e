/** The active segment: an append-only byte stream with its directory and time range. */
module SegmentWriter {
  import opened Types
  import opened Bytes
  import opened Segment
  import opened BufferLog

  ghost predicate IsInt64(v: int) {
    -0x8000_0000_0000_0000 <= v <= MAX_INT64
  }

  class SegmentWriter {
    const crc: Checksum
    const gen: nat
    var bytes: seq<byte>
    var size: nat
    var tMin: int
    var tMax: int
    var dir: seq<DirEntry>
    ghost var frags: seq<Frag>

    ghost predicate Valid()
      reads this
    {
      && bytes == Log(crc, Recs(frags))
      && size == |bytes|
      && dir == Directory(Recs(frags))
      && Bounded(Recs(frags))
      && IsInt64(tMin) && IsInt64(tMax)
    }

    /** Every fragment of this segment was stamped no later than `tMax`. */
    ghost predicate TimesCover()
      reads this
    {
      forall i :: 0 <= i < |frags| ==> frags[i].stamp <= tMax
    }

    /** A new, empty segment. */
    constructor (crc: Checksum, gen: nat)
      ensures Valid() && this.crc == crc && this.gen == gen
      ensures frags == [] && size == 0 && tMin == MAX_INT64 && tMax == 0
    {
      this.crc, this.gen := crc, gen;
      bytes, size, tMin, tMax, dir, frags := [], 0, MAX_INT64, 0, [], [];
      new;
      assert Recs([]) == [];
    }

    /**
     A footerless segment reopened after its valid prefix was scanned. If the
     prefix is the log of some fragments, the writer continues exactly that log;
     its time range starts afresh, and covers them if the clock has not gone back.
     */
    constructor Recovered(crc: Checksum, gen: nat, bytes: seq<byte>, entries: seq<DirEntry>, now: int, ghost frags: seq<Frag>)
      requires IsInt64(now)
      ensures this.crc == crc && this.gen == gen && this.frags == frags && tMin == tMax == now
      ensures bytes == Log(crc, Recs(frags)) && entries == Directory(Recs(frags)) && Bounded(Recs(frags)) ==> Valid()
      ensures TimesCover() <==> forall i :: 0 <= i < |frags| ==> frags[i].stamp <= now
    {
      this.crc, this.gen := crc, gen;
      this.bytes, size, tMin, tMax, dir := bytes, |bytes|, now, now, entries;
      this.frags := frags;
    }

    /** A segment of no bytes holds no fragment. */
    lemma EmptySegment()
      requires Valid() && size == 0
      ensures frags == []
    {
      assert |Recs(frags)| == |frags|;
    }

    /** Append one record; its offset is the size before it. */
    method Append(id: TraceId, frag: seq<byte>, now: int) returns (off: nat)
      requires Valid() && IsInt64(now)
      requires |frag| <= MAX_RECORD_LEN && size + REC_HEADER_LEN + |frag| <= MAX_SEGMENT
      modifies this
      ensures Valid()
      ensures frags == old(frags) + [Frag(Rec(id, frag), now)]
      ensures off == LenU32(LogSize(Recs(old(frags))))
      ensures size == old(size) + REC_HEADER_LEN + |frag|
      ensures tMin == (if now < old(tMin) then now else old(tMin)) && tMax == (if now > old(tMax) then now else old(tMax))
    {
      var r := Rec(id, frag);
      RecsAppend(frags, Frag(r, now));
      var header := new byte[REC_HEADER_LEN];
      PutRecordHeader(crc, header, id, frag);
      off := LenU32(size);
      bytes := bytes + (header[..] + frag);
      dir := dir + [DirEntry(id, off, LenU32(|frag|))];
      size := size + REC_HEADER_LEN + |frag|;
      if now < tMin {
        tMin := now;
      }
      if now > tMax {
        tMax := now;
      }
      frags := frags + [Frag(r, now)];
    }

    /** The finalized file; refused when the time range does not fit the trailer's unsigned fields. */
    method Finalize() returns (ok: bool, file: seq<byte>)
      requires Valid()
      ensures ok <==> tMin >= 0 && tMax >= 0
      ensures ok ==> file == FinalizedFile(crc, bytes, tMin, tMax, dir)
    {
      if tMin < 0 || tMax < 0 {
        return false, bytes;
      }
      var footer := [];
      var i := 0;
      while i < |dir|
        invariant 0 <= i <= |dir|
        invariant footer == DirectoryBytes(dir[..i])
      {
        assert dir[..i + 1][..i] == dir[..i];
        footer := footer + EntryBytes(dir[i]);
        i := i + 1;
      }
      assert dir[..i] == dir;
      ok, file := true, bytes + footer + Trailer(crc, size, tMin, tMax, dir);
    }
  }

  lemma RecsAppend(fs: seq<Frag>, f: Frag)
    requires Bounded(Recs(fs))
    ensures Recs(fs + [f]) == Recs(fs) + [f.rec]
    ensures forall crc :: Log(crc, Recs(fs + [f])) == Log(crc, Recs(fs)) + RecordBytes(crc, f.rec)
    ensures LogSize(Recs(fs + [f])) == LogSize(Recs(fs)) + RecordSize(f.rec)
    ensures Directory(Recs(fs + [f])) == Directory(Recs(fs)) + [EntryOf(f.rec, LogSize(Recs(fs)))]
    ensures |f.rec.frag| <= MAX_RECORD_LEN && LogSize(Recs(fs)) + RecordSize(f.rec) <= MAX_SEGMENT ==> Bounded(Recs(fs + [f]))
  {
    assert Recs(fs + [f]) == Recs(fs) + [f.rec];
    hide Log, LogSize, Directory, RecordBytes, RecordSize, EntryOf, Recs;
    forall crc
      ensures Log(crc, Recs(fs + [f])) == Log(crc, Recs(fs)) + RecordBytes(crc, f.rec)
      ensures LogSize(Recs(fs + [f])) == LogSize(Recs(fs)) + RecordSize(f.rec)
      ensures Directory(Recs(fs + [f])) == Directory(Recs(fs)) + [EntryOf(f.rec, LogSize(Recs(fs)))]
    {
      LogNext(crc, Recs(fs), f.rec);
    }
    LogNext(_ => 0, Recs(fs), f.rec);
  }
}
