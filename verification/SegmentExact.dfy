/**
 What the readers of a segment file accept, on every byte string: the scan finds
 the longest prefix that is a log, and a footer is read exactly from the files
 that finalizing produces.
 */
module SegmentExact {
  import opened Types
  import opened Bytes
  import opened Segment

  lemma {:induction false} BytesBack(b: seq<byte>)
    ensures LittleEndian(FromLittleEndian(b), |b|) == b
  {
    hide Pow256;
    if b != [] {
      BytesBack(b[1..]);
      LowByte(b[0] as nat, FromLittleEndian(b[1..]));
      assert b == [b[0]] + b[1..];
    }
  }

  lemma LowByte(low: nat, high: nat)
    requires low < 256
    ensures (low + 256 * high) % 256 == low && (low + 256 * high) / 256 == high
  {
  }

  ghost predicate Storable(recs: seq<Rec>) {
    forall i :: 0 <= i < |recs| ==> |recs[i].frag| <= MAX_RECORD_LEN
  }

  // ----------------------------------------------------------------- scan

  /** A header that parses to these fields is the header written for them. */
  lemma HeaderBack(crc: Checksum, h: seq<byte>, r: Rec)
    requires |h| == REC_HEADER_LEN && |r.frag| <= MAX_RECORD_LEN
    requires ParseRecordHeader(h) == (|r.frag|, r.id, crc(r.frag) as nat)
    ensures h == RecordHeader(crc, r)
  {
    hide LittleEndian, FromLittleEndian;
    BytesBack(h[0..4]);
    BytesBack(h[4..20]);
    BytesBack(h[20..24]);
    assert h == h[0..4] + h[4..20] + h[20..24];
  }

  /** A record that checks out is that record's bytes, and the scan goes on behind it. */
  lemma ScanAccepts(crc: Checksum, rest: seq<byte>, off: nat) returns (r: Rec)
    requires Scan(crc, rest, off).0 != []
    ensures |r.frag| <= MAX_RECORD_LEN && RecordSize(r) <= |rest| && rest[..RecordSize(r)] == RecordBytes(crc, r)
    ensures var (entries, end) := Scan(crc, rest[RecordSize(r)..], off + RecordSize(r));
            Scan(crc, rest, off) == ([EntryOf(r, off)] + entries, end)
  {
    hide LittleEndian, FromLittleEndian, RecordHeader;
    var h := rest[..REC_HEADER_LEN];
    var (length, id, want) := ParseRecordHeader(h);
    r := Rec(id, rest[REC_HEADER_LEN..REC_HEADER_LEN + length]);
    HeaderBack(crc, h, r);
    assert rest[..RecordSize(r)] == h + r.frag;
  }

  lemma ScanEnds(crc: Checksum, rest: seq<byte>, off: nat)
    requires Scan(crc, rest, off).0 == []
    ensures Scan(crc, rest, off).1 == off
  {
  }

  /** What the scan returns is the directory of a log, and that log is what it read. */
  lemma {:induction false} ScanSound(crc: Checksum, done: seq<Rec>, rest: seq<byte>) returns (recs: seq<Rec>)
    requires Storable(done)
    ensures Storable(recs) && LogSize(done) <= LogSize(recs) <= LogSize(done) + |rest|
    ensures var (entries, end) := Scan(crc, rest, LogSize(done));
            && Directory(recs) == Directory(done) + entries && end == LogSize(recs)
            && Log(crc, recs) == Log(crc, done) + rest[..LogSize(recs) - LogSize(done)]
    decreases |rest|
  {
    hide Scan, Log, LogSize, Directory, RecordBytes, EntryOf;
    var off := LogSize(done);
    if Scan(crc, rest, off).0 == [] {
      recs := done;
      ScanEnds(crc, rest, off);
      assert Directory(done) + [] == Directory(done) && Log(crc, done) + rest[..0] == Log(crc, done);
    } else {
      var r := ScanAccepts(crc, rest, off);
      LogNext(crc, done, r);
      var n := RecordSize(r);
      recs := ScanSound(crc, done + [r], rest[n..]);
      var m := LogSize(recs) - LogSize(done);
      assert rest[..m] == rest[..n] + rest[n..][..m - n];
      assert Log(crc, done) + rest[..m] == (Log(crc, done) + rest[..n]) + rest[n..][..m - n];
      var entries := Scan(crc, rest[n..], off + n).0;
      assert Directory(done) + ([EntryOf(r, off)] + entries) == (Directory(done) + [EntryOf(r, off)]) + entries;
    }
  }

  lemma LogOfNone(crc: Checksum)
    ensures Log(crc, []) == [] && LogSize([]) == 0 && Directory([]) == []
  {
  }

  /** A log in front of anything is scanned whole. */
  lemma {:induction false} ScanReachesPast(crc: Checksum, recs: seq<Rec>, rest: seq<byte>)
    requires Storable(recs)
    ensures var (entries, end) := Scan(crc, rest, LogSize(recs));
            Scan(crc, Log(crc, recs) + rest, 0) == (Directory(recs) + entries, end)
  {
    hide Scan, RecordBytes, EntryOf, Log, LogSize, Directory, RecordSize;
    if recs == [] {
      LogOfNone(crc);
      assert [] + rest == rest;
      assert [] + Scan(crc, rest, 0).0 == Scan(crc, rest, 0).0;
    } else {
      var init, r := recs[..|recs| - 1], recs[|recs| - 1];
      assert init + [r] == recs;
      LogNext(crc, init, r);
      ScanReachesPast(crc, init, RecordBytes(crc, r) + rest);
      ScanStep(crc, r, rest, LogSize(init));
      assert Log(crc, recs) + rest == Log(crc, init) + (RecordBytes(crc, r) + rest);
      var entries := Scan(crc, rest, LogSize(recs)).0;
      assert Directory(recs) + entries == Directory(init) + ([EntryOf(r, LogSize(init))] + entries);
    }
  }

  lemma {:induction false} ScanMovesOn(crc: Checksum, rest: seq<byte>, off: nat)
    ensures Scan(crc, rest, off).1 >= off
    decreases |rest|
  {
    hide Scan;
    if Scan(crc, rest, off).0 == [] {
      ScanEnds(crc, rest, off);
    } else {
      var r := ScanAccepts(crc, rest, off);
      ScanMovesOn(crc, rest[RecordSize(r)..], off + RecordSize(r));
    }
  }

  /**
   On every byte string: the scan returns the directory and the size of a log
   that is a prefix of the string, and no longer log is one.
   */
  lemma ScanIsLongestLog(crc: Checksum, file: seq<byte>) returns (recs: seq<Rec>)
    ensures Storable(recs) && Log(crc, recs) <= file && Scan(crc, file, 0) == (Directory(recs), LogSize(recs))
    ensures forall other :: Storable(other) && Log(crc, other) <= file ==> LogSize(other) <= LogSize(recs)
  {
    recs := ScanSound(crc, [], file);
    hide Scan, Storable;
    assert [] + Scan(crc, file, 0).0 == Scan(crc, file, 0).0;
    assert [] + file[..LogSize(recs)] == file[..LogSize(recs)];
    forall other | Storable(other) && Log(crc, other) <= file
      ensures LogSize(other) <= LogSize(recs)
    {
      var rest := file[LogSize(other)..];
      assert file == Log(crc, other) + rest;
      ScanReachesPast(crc, other, rest);
      ScanMovesOn(crc, rest, LogSize(other));
    }
  }

  // --------------------------------------------------------------- footer

  lemma EntryBack(b: seq<byte>)
    requires |b| == DIR_ENTRY_LEN
    ensures EntryBytes(EntryFrom(b)) == b
    ensures EntryFits(EntryFrom(b))
  {
    Powers();
    hide LittleEndian, FromLittleEndian, Pow256;
    BytesBack(b[0..16]);
    BytesBack(b[16..20]);
    BytesBack(b[20..24]);
    assert b == b[0..16] + b[16..20] + b[20..24];
  }

  lemma EntriesNext(b: seq<byte>, n: nat)
    requires n > 0 && |b| == n * DIR_ENTRY_LEN
    ensures var m := (n - 1) * DIR_ENTRY_LEN;
            EntriesFrom(b, n) == EntriesFrom(b[..m], n - 1) + [EntryFrom(b[m..])]
  {
  }

  lemma DirectoryNext(dir: seq<DirEntry>, e: DirEntry)
    ensures DirectoryBytes(dir + [e]) == DirectoryBytes(dir) + EntryBytes(e)
  {
    assert (dir + [e])[..|dir|] == dir;
  }

  ghost predicate EntryFits(e: DirEntry) {
    e.off < 0x1_0000_0000 && e.length < 0x1_0000_0000
  }

  ghost predicate AllFit(dir: seq<DirEntry>) {
    forall i :: 0 <= i < |dir| ==> EntryFits(dir[i])
  }

  /** One more entry, read from the bytes behind the others. */
  lemma OneEntryBack(init: seq<DirEntry>, front: seq<byte>, last: seq<byte>)
    requires |last| == DIR_ENTRY_LEN && DirectoryBytes(init) == front && AllFit(init)
    ensures DirectoryBytes(init + [EntryFrom(last)]) == front + last && AllFit(init + [EntryFrom(last)])
  {
    hide EntryBytes, EntryFrom, DirectoryBytes, EntryFits;
    EntryBack(last);
    DirectoryNext(init, EntryFrom(last));
  }

  lemma {:induction false} EntriesBack(b: seq<byte>, n: nat)
    requires |b| == n * DIR_ENTRY_LEN
    ensures DirectoryBytes(EntriesFrom(b, n)) == b && AllFit(EntriesFrom(b, n))
  {
    hide EntryFrom, AllFit;
    if n == 0 {
      NoneFit();
    } else {
      hide EntriesFrom, DirectoryBytes;
      var m := (n - 1) * DIR_ENTRY_LEN;
      EntriesBack(b[..m], n - 1);
      EntriesNext(b, n);
      OneEntryBack(EntriesFrom(b[..m], n - 1), b[..m], b[m..]);
      assert b == b[..m] + b[m..];
    }
  }

  lemma NoneFit()
    ensures AllFit([])
  {
  }

  lemma TrailerBack(t: seq<byte>)
    requires |t| == TRAILER_LEN
    ensures t == LittleEndian(FromLittleEndian(t[0..8]), 8) + LittleEndian(FromLittleEndian(t[8..12]), 4)
               + LittleEndian(FromLittleEndian(t[12..20]), 8) + LittleEndian(FromLittleEndian(t[20..28]), 8)
               + LittleEndian(FromLittleEndian(t[28..32]), 4) + LittleEndian(FromLittleEndian(t[32..36]), 4)
  {
    hide LittleEndian, FromLittleEndian;
    BytesBack(t[0..8]);
    BytesBack(t[8..12]);
    BytesBack(t[12..20]);
    BytesBack(t[20..28]);
    BytesBack(t[28..32]);
    BytesBack(t[32..36]);
    assert t == t[0..8] + t[8..12] + t[12..20] + t[20..28] + t[28..32] + t[32..36];
  }

  /** The file is what finalizing `body` with this range and directory writes. */
  ghost predicate IsFinalized(crc: Checksum, file: seq<byte>, body: seq<byte>, f: Footer) {
    && |body| <= MAX_INT64 && 0 <= f.tMin <= MAX_INT64 && 0 <= f.tMax <= MAX_INT64 && FitsFooter(f.entries)
    && file == FinalizedFile(crc, body, f.tMin, f.tMax, f.entries)
  }

  /** A footer that is read stands in a file that finalizing wrote. */
  lemma FooterIsFinalized(crc: Checksum, file: seq<byte>) returns (body: seq<byte>)
    requires ReadFooter(crc, file).Some?
    ensures IsFinalized(crc, file, body, ReadFooter(crc, file).value)
  {
    Powers();
    hide LittleEndian, FromLittleEndian, Pow256, EntriesFrom;
    var size := |file|;
    var t := file[size - TRAILER_LEN..];
    var off, count := FromLittleEndian(t[0..8]), FromLittleEndian(t[8..12]);
    body := file[..off];
    var footer := file[off..off + count * DIR_ENTRY_LEN];
    EntriesBack(footer, count);
    TrailerBack(t);
    assert count < 0x1_0000_0000 by { assert |t[8..12]| == 4; }
    assert file == body + footer + t;
  }

  /** On every byte string: a footer is read if and only if the file is one that finalizing writes, and then it is that one's. */
  lemma FooterExactly(crc: Checksum, file: seq<byte>, f: Footer)
    ensures ReadFooter(crc, file) == Some(f) <==> exists body :: IsFinalized(crc, file, body, f)
  {
    hide ReadFooter;
    if ReadFooter(crc, file) == Some(f) {
      var body := FooterIsFinalized(crc, file);
    }
    if body :| IsFinalized(crc, file, body, f) {
      FooterRoundTrip(crc, body, f.tMin, f.tMax, f.entries);
    }
  }
}
