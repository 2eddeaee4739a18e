/**
 The segment file format: length-prefixed, checksummed records, and the footer
 directory and trailer that finalizing a segment writes behind them. The
 checksum is an arbitrary function of the payload.
 */
module Segment {
  import opened Types
  import opened Bytes

  const REC_HEADER_LEN: nat := 24
  const DIR_ENTRY_LEN: nat := 24
  const TRAILER_LEN: nat := 36
  const SEG_MAGIC: nat := 0x52535347
  const MAX_RECORD_LEN: nat := 67108864
  const MAX_INT64: int := 0x7FFF_FFFF_FFFF_FFFF

  newtype u32 = x: int | 0 <= x < 0x1_0000_0000

  type Checksum = seq<byte> -> u32

  /** One appended fragment. */
  datatype Rec = Rec(id: TraceId, frag: seq<byte>)

  /** One directory entry: the record header's offset and the fragment's length. */
  datatype DirEntry = DirEntry(id: TraceId, off: nat, length: nat)

  /** A parsed footer. */
  datatype Footer = Footer(tMin: int, tMax: int, entries: seq<DirEntry>)

  function IdFrom(b: seq<byte>): (id: TraceId)
    requires |b| == 16
  {
    Powers();
    FromLittleEndian(b) as TraceId
  }

  /** A length or offset narrowed to 32 bits; out of range becomes 0. */
  function LenU32(n: int): (v: nat)
    ensures v < 0x1_0000_0000
  {
    if n < 0 || n >= 0x1_0000_0000 then 0 else n
  }

  // -------------------------------------------------------------- records

  function RecordHeader(crc: Checksum, r: Rec): (h: seq<byte>)
    ensures |h| == REC_HEADER_LEN
  {
    LittleEndian(LenU32(|r.frag|), 4) + LittleEndian(r.id as nat, 16) + LittleEndian(crc(r.frag) as nat, 4)
  }

  /** Store `v`'s `k` low bytes into `dst` at `at`. */
  method PutLittleEndian(dst: array<byte>, at: nat, v: nat, k: nat)
    requires at + k <= dst.Length
    modifies dst
    ensures dst[..] == old(dst[..at]) + LittleEndian(v, k) + old(dst[at + k..])
  {
    var rest, i := v, 0;
    while i < k
      invariant 0 <= i <= k
      invariant dst[..at + i] + LittleEndian(rest, k - i) == old(dst[..at]) + LittleEndian(v, k)
      invariant dst[at + i..] == old(dst[at + i..])
    {
      ghost var before := dst[..at + i];
      dst[at + i] := (rest % 256) as byte;
      assert dst[..at + i + 1] == before + [(rest % 256) as byte];
      rest := rest / 256;
      i := i + 1;
    }
    assert dst[..] == dst[..at + k] + dst[at + k..];
  }

  /** Write a record header in place; every byte of `dst` is overwritten. */
  method PutRecordHeader(crc: Checksum, dst: array<byte>, id: TraceId, frag: seq<byte>)
    requires dst.Length == REC_HEADER_LEN
    modifies dst
    ensures dst[..] == RecordHeader(crc, Rec(id, frag))
  {
    PutLittleEndian(dst, 0, LenU32(|frag|), 4);
    assert dst[..4] == LittleEndian(LenU32(|frag|), 4);
    PutLittleEndian(dst, 4, id as nat, 16);
    assert dst[..20] == LittleEndian(LenU32(|frag|), 4) + LittleEndian(id as nat, 16);
    PutLittleEndian(dst, 20, crc(frag) as nat, 4);
  }

  function ParseRecordHeader(h: seq<byte>): (r: (nat, TraceId, nat))
    requires |h| == REC_HEADER_LEN
  {
    (FromLittleEndian(h[0..4]), IdFrom(h[4..20]), FromLittleEndian(h[20..24]))
  }

  lemma RecordHeaderRoundTrip(crc: Checksum, r: Rec)
    requires |r.frag| <= MAX_RECORD_LEN
    ensures ParseRecordHeader(RecordHeader(crc, r)) == (|r.frag|, r.id, crc(r.frag) as nat)
  {
    var h := RecordHeader(crc, r);
    assert h[0..4] == LittleEndian(|r.frag|, 4);
    assert h[4..20] == LittleEndian(r.id as nat, 16);
    assert h[20..24] == LittleEndian(crc(r.frag) as nat, 4);
    FieldRoundTrip(|r.frag|, 4);
    FieldRoundTrip(r.id as nat, 16);
    FieldRoundTrip(crc(r.frag) as nat, 4);
  }

  function RecordBytes(crc: Checksum, r: Rec): (b: seq<byte>)
    ensures |b| == RecordSize(r)
  {
    RecordHeader(crc, r) + r.frag
  }

  function RecordSize(r: Rec): (n: nat) {
    REC_HEADER_LEN + |r.frag|
  }

  /** The byte stream a segment holds after `recs` have been appended. */
  function Log(crc: Checksum, recs: seq<Rec>): (b: seq<byte>)
    ensures |b| == LogSize(recs)
  {
    if recs == [] then [] else Log(crc, recs[..|recs| - 1]) + RecordBytes(crc, recs[|recs| - 1])
  }

  function LogSize(recs: seq<Rec>): (n: nat) {
    if recs == [] then 0 else LogSize(recs[..|recs| - 1]) + RecordSize(recs[|recs| - 1])
  }

  /** The directory of `recs`: each at the size of everything before it. */
  function Directory(recs: seq<Rec>): (d: seq<DirEntry>)
    ensures |d| == |recs|
  {
    if recs == [] then [] else
      Directory(recs[..|recs| - 1]) + [EntryOf(recs[|recs| - 1], LogSize(recs[..|recs| - 1]))]
  }

  function EntryOf(r: Rec, off: nat): (e: DirEntry) {
    DirEntry(r.id, LenU32(off), LenU32(|r.frag|))
  }

  lemma LogNext(crc: Checksum, recs: seq<Rec>, r: Rec)
    ensures Log(crc, recs + [r]) == Log(crc, recs) + RecordBytes(crc, r)
    ensures LogSize(recs + [r]) == LogSize(recs) + RecordSize(r)
    ensures Directory(recs + [r]) == Directory(recs) + [EntryOf(r, LogSize(recs))]
  {
    assert (recs + [r])[..|recs|] == recs;
  }

  lemma {:induction false} LogSizeMonotone(recs: seq<Rec>, k: nat)
    requires k <= |recs|
    ensures LogSize(recs[..k]) <= LogSize(recs)
  {
    if k < |recs| {
      var init := recs[..|recs| - 1];
      assert init[..k] == recs[..k];
      LogSizeMonotone(init, k);
    } else {
      assert recs[..k] == recs;
    }
  }

  lemma {:induction false} LogPrefix(crc: Checksum, recs: seq<Rec>, k: nat)
    requires k <= |recs|
    ensures LogSize(recs[..k]) <= LogSize(recs)
    ensures Log(crc, recs)[..LogSize(recs[..k])] == Log(crc, recs[..k])
  {
    LogSizeMonotone(recs, k);
    if k < |recs| {
      var init := recs[..|recs| - 1];
      assert init[..k] == recs[..k];
      LogPrefix(crc, init, k);
      LogSizeMonotone(init, k);
    } else {
      assert recs[..k] == recs;
    }
  }

  /** Record `k` of a segment lies where its directory entry says. */
  lemma RecordInLog(crc: Checksum, recs: seq<Rec>, k: nat)
    requires k < |recs|
    ensures LogSize(recs[..k + 1]) == LogSize(recs[..k]) + RecordSize(recs[k]) <= LogSize(recs)
    ensures Log(crc, recs)[LogSize(recs[..k])..LogSize(recs[..k + 1])] == RecordBytes(crc, recs[k])
  {
    hide Log, LogSize, RecordBytes, RecordHeader;
    LogPrefix(crc, recs, k + 1);
    LogOfNext(crc, recs, k);
    LastPart(Log(crc, recs), Log(crc, recs[..k]), RecordBytes(crc, recs[k]));
  }

  lemma LogOfNext(crc: Checksum, recs: seq<Rec>, k: nat)
    requires k < |recs|
    ensures Log(crc, recs[..k + 1]) == Log(crc, recs[..k]) + RecordBytes(crc, recs[k])
    ensures LogSize(recs[..k + 1]) == LogSize(recs[..k]) + RecordSize(recs[k])
  {
    assert recs[..k + 1][..k] == recs[..k];
  }

  lemma LastPart(whole: seq<byte>, a: seq<byte>, b: seq<byte>)
    requires |a| + |b| <= |whole| && whole[..|a| + |b|] == a + b
    ensures whole[|a|..|a| + |b|] == b
  {
    assert whole[|a|..|a| + |b|] == whole[..|a| + |b|][|a|..];
  }

  lemma {:induction false} DirectoryAt(recs: seq<Rec>, k: nat)
    requires k < |recs|
    ensures Directory(recs)[k] == EntryOf(recs[k], LogSize(recs[..k]))
  {
    var init := recs[..|recs| - 1];
    if k < |init| {
      DirectoryAt(init, k);
      assert init[..k] == recs[..k];
    }
  }

  // ------------------------------------------------------------- scanning

  /** Read records off a stream that starts at offset `off`, stopping at the first that does not check out. */
  function Scan(crc: Checksum, rest: seq<byte>, off: nat): (r: (seq<DirEntry>, nat))
    decreases |rest|
  {
    if |rest| < REC_HEADER_LEN then ([], off) else
      var (length, id, want) := ParseRecordHeader(rest[..REC_HEADER_LEN]);
      if length > MAX_RECORD_LEN || |rest| - REC_HEADER_LEN < length then ([], off) else
        var frag := rest[REC_HEADER_LEN..REC_HEADER_LEN + length];
        if crc(frag) as nat != want then ([], off) else
          var (entries, end) := Scan(crc, rest[REC_HEADER_LEN + length..], off + REC_HEADER_LEN + length);
          ([DirEntry(id, LenU32(off), length)] + entries, end)
  }

  /** The first record of the stream checks out. */
  predicate Intact(crc: Checksum, rest: seq<byte>) {
    && |rest| >= REC_HEADER_LEN
    && var (length, id, want) := ParseRecordHeader(rest[..REC_HEADER_LEN]);
       && length <= MAX_RECORD_LEN && length <= |rest| - REC_HEADER_LEN
       && crc(rest[REC_HEADER_LEN..REC_HEADER_LEN + length]) as nat == want
  }

  /** What the scan found so far, in front of what it finds from here. */
  lemma ScanTurn(crc: Checksum, entries: seq<DirEntry>, rest: seq<byte>, off: nat)
    ensures !Intact(crc, rest) ==> (entries + Scan(crc, rest, off).0, Scan(crc, rest, off).1) == (entries, off)
    ensures Intact(crc, rest) ==>
              var (length, id, want) := ParseRecordHeader(rest[..REC_HEADER_LEN]);
              var next := Scan(crc, rest[REC_HEADER_LEN + length..], off + REC_HEADER_LEN + length);
              (entries + Scan(crc, rest, off).0, Scan(crc, rest, off).1) == ((entries + [DirEntry(id, LenU32(off), length)]) + next.0, next.1)
  {
    hide ParseRecordHeader;
    assert entries + [] == entries;
    if Intact(crc, rest) {
      var (length, id, want) := ParseRecordHeader(rest[..REC_HEADER_LEN]);
      var tail := Scan(crc, rest[REC_HEADER_LEN + length..], off + REC_HEADER_LEN + length).0;
      assert entries + ([DirEntry(id, LenU32(off), length)] + tail) == (entries + [DirEntry(id, LenU32(off), length)]) + tail;
    }
  }

  method ScanRecords(crc: Checksum, file: seq<byte>) returns (entries: seq<DirEntry>, validEnd: nat)
    ensures (entries, validEnd) == Scan(crc, file, 0)
  {
    hide Scan, ParseRecordHeader;
    entries, validEnd := [], 0;
    var rest, off := file, 0;
    assert entries + Scan(crc, file, 0).0 == Scan(crc, file, 0).0;
    while |rest| >= REC_HEADER_LEN
      invariant validEnd == off
      invariant Scan(crc, file, 0) == (entries + Scan(crc, rest, off).0, Scan(crc, rest, off).1)
      decreases |rest|
    {
      ScanTurn(crc, entries, rest, off);
      var (length, id, want) := ParseRecordHeader(rest[..REC_HEADER_LEN]);
      if length > MAX_RECORD_LEN || |rest| - REC_HEADER_LEN < length {
        return;
      }
      var frag := rest[REC_HEADER_LEN..REC_HEADER_LEN + length];
      if crc(frag) as nat != want {
        return;
      }
      entries := entries + [DirEntry(id, LenU32(off), length)];
      rest := rest[REC_HEADER_LEN + length..];
      off := off + REC_HEADER_LEN + length;
      validEnd := off;
    }
    ScanTurn(crc, entries, rest, off);
  }

  /** How many of `recs` lie wholly within the first `cut` bytes of their log. */
  function Fitting(recs: seq<Rec>, cut: nat): (k: nat)
    ensures k <= |recs|
  {
    if LogSize(recs) <= cut || recs == [] then |recs| else Fitting(recs[..|recs| - 1], cut)
  }

  lemma {:induction false} FittingIsLargest(recs: seq<Rec>, cut: nat)
    ensures var k := Fitting(recs, cut);
            LogSize(recs[..k]) <= cut && (k < |recs| ==> cut < LogSize(recs[..k + 1]))
  {
    if LogSize(recs) <= cut || recs == [] {
      assert recs[..|recs|] == recs;
    } else {
      var init := recs[..|recs| - 1];
      var k := Fitting(init, cut);
      FittingIsLargest(init, cut);
      assert init[..k] == recs[..k];
      if k < |init| {
        assert init[..k + 1] == recs[..k + 1];
      } else {
        assert recs[..k + 1] == recs;
      }
    }
  }

  /** Reading one whole record off the stream leaves the scan at the next one. */
  lemma ScanStep(crc: Checksum, r: Rec, rest: seq<byte>, off: nat)
    requires |r.frag| <= MAX_RECORD_LEN
    ensures var (entries, end) := Scan(crc, rest, off + RecordSize(r));
            Scan(crc, RecordBytes(crc, r) + rest, off) == ([EntryOf(r, off)] + entries, end)
  {
    var b := RecordBytes(crc, r) + rest;
    RecordHeaderRoundTrip(crc, r);
    assert b[..REC_HEADER_LEN] == RecordHeader(crc, r);
    assert b[REC_HEADER_LEN..REC_HEADER_LEN + |r.frag|] == r.frag;
    assert b[REC_HEADER_LEN + |r.frag|..] == rest;
  }

  /** A record of which not every byte is there ends the scan. */
  lemma ScanStops(crc: Checksum, r: Rec, cut: nat, off: nat)
    requires |r.frag| <= MAX_RECORD_LEN
    requires cut < RecordSize(r)
    ensures Scan(crc, RecordBytes(crc, r)[..cut], off) == ([], off)
  {
    if cut >= REC_HEADER_LEN {
      RecordHeaderRoundTrip(crc, r);
      assert RecordBytes(crc, r)[..cut][..REC_HEADER_LEN] == RecordHeader(crc, r);
    }
  }

  lemma ScanOfNothing(crc: Checksum, off: nat)
    ensures Scan(crc, [], off) == ([], off)
  {
  }

  /** Where a scan that reached record `k`, the first not wholly present, ends. */
  lemma ScanAtTear(crc: Checksum, recs: seq<Rec>, cut: nat, k: nat)
    requires k <= |recs| && LogSize(recs[..k]) <= cut <= LogSize(recs)
    requires k < |recs| ==> cut < LogSize(recs[..k + 1]) && |recs[k].frag| <= MAX_RECORD_LEN
    ensures var a := LogSize(recs[..k]); Scan(crc, Log(crc, recs)[a..cut], a) == ([], a)
  {
    hide Log, Scan, RecordBytes, LogSize;
    var log, a := Log(crc, recs), LogSize(recs[..k]);
    if k < |recs| {
      RecordInLog(crc, recs, k);
      ScanStops(crc, recs[k], cut - a, a);
      SliceOfSlice(log, a, LogSize(recs[..k + 1]), cut);
    } else {
      assert recs[..k] == recs;
      assert log[a..cut] == [];
      ScanOfNothing(crc, a);
    }
  }

  /** One record of a scan that is known from the next record on. */
  lemma ScanAdvance(crc: Checksum, recs: seq<Rec>, cut: nat, i: nat, entries: seq<DirEntry>, end: nat)
    requires i < |recs| && |recs[i].frag| <= MAX_RECORD_LEN
    requires LogSize(recs[..i + 1]) <= cut <= LogSize(recs)
    requires Scan(crc, Log(crc, recs)[LogSize(recs[..i + 1])..cut], LogSize(recs[..i + 1])) == (entries, end)
    ensures LogSize(recs[..i]) <= cut
    ensures Scan(crc, Log(crc, recs)[LogSize(recs[..i])..cut], LogSize(recs[..i]))
            == ([EntryOf(recs[i], LogSize(recs[..i]))] + entries, end)
  {
    hide Log, Scan, RecordBytes, EntryOf, LogSize;
    var log, a, b := Log(crc, recs), LogSize(recs[..i]), LogSize(recs[..i + 1]);
    RecordInLog(crc, recs, i);
    SliceJoin(log, a, b, cut);
    ScanStep(crc, recs[i], log[b..cut], a);
  }

  /** The scan from the start of record `i` of a log cut short after `cut` bytes. */
  lemma {:induction false} ScanFrom(crc: Checksum, recs: seq<Rec>, cut: nat, i: nat)
    requires forall j :: 0 <= j < |recs| ==> |recs[j].frag| <= MAX_RECORD_LEN
    requires cut <= LogSize(recs)
    requires i <= Fitting(recs, cut)
    ensures LogSize(recs[..i]) <= cut
    ensures var k := Fitting(recs, cut);
            Scan(crc, Log(crc, recs)[LogSize(recs[..i])..cut], LogSize(recs[..i]))
            == (Directory(recs[..k])[i..], LogSize(recs[..k]))
    decreases Fitting(recs, cut) - i
  {
    hide Log, Scan, Fitting, RecordBytes, Directory, EntryOf, LogSize;
    var k := Fitting(recs, cut);
    FittingIsLargest(recs, cut);
    if i == k {
      assert Directory(recs[..k])[k..] == [];
      ScanAtTear(crc, recs, cut, k);
    } else {
      ScanFrom(crc, recs, cut, i + 1);
      ScanAdvance(crc, recs, cut, i, Directory(recs[..k])[i + 1..], LogSize(recs[..k]));
      DirectoryAt(recs[..k], i);
      assert recs[..k][..i] == recs[..i];
      assert Directory(recs[..k])[i..] == [Directory(recs[..k])[i]] + Directory(recs[..k])[i + 1..];
    }
  }

  /**
   Torn tail: cut the log of any appended records at any byte, and the scan
   returns exactly the entries of the records that lie wholly before the cut,
   and their total size.
   */
  lemma TornTail(crc: Checksum, recs: seq<Rec>, cut: nat)
    requires forall j :: 0 <= j < |recs| ==> |recs[j].frag| <= MAX_RECORD_LEN
    requires cut <= LogSize(recs)
    ensures var k := Fitting(recs, cut);
            && LogSize(recs[..k]) <= cut
            && (k < |recs| ==> cut < LogSize(recs[..k + 1]))
            && Scan(crc, Log(crc, recs)[..cut], 0) == (Directory(recs[..k]), LogSize(recs[..k]))
  {
    FittingIsLargest(recs, cut);
    assert recs[..0] == [];
    ScanFrom(crc, recs, cut, 0);
  }

  /** An untouched log scans back to its whole directory. */
  lemma WholeLogScans(crc: Checksum, recs: seq<Rec>)
    requires forall j :: 0 <= j < |recs| ==> |recs[j].frag| <= MAX_RECORD_LEN
    ensures Scan(crc, Log(crc, recs), 0) == (Directory(recs), LogSize(recs))
  {
    TornTail(crc, recs, LogSize(recs));
    assert Log(crc, recs)[..LogSize(recs)] == Log(crc, recs);
    assert recs[..|recs|] == recs;
  }

  // --------------------------------------------------------------- footer

  function EntryBytes(e: DirEntry): (b: seq<byte>)
    ensures |b| == DIR_ENTRY_LEN
  {
    LittleEndian(e.id as nat, 16) + LittleEndian(e.off, 4) + LittleEndian(e.length, 4)
  }

  function DirectoryBytes(dir: seq<DirEntry>): (b: seq<byte>)
    ensures |b| == |dir| * DIR_ENTRY_LEN
  {
    if dir == [] then [] else DirectoryBytes(dir[..|dir| - 1]) + EntryBytes(dir[|dir| - 1])
  }

  function Trailer(crc: Checksum, footerOff: nat, tMin: nat, tMax: nat, dir: seq<DirEntry>): (b: seq<byte>)
    ensures |b| == TRAILER_LEN
  {
    LittleEndian(footerOff, 8) + LittleEndian(LenU32(|dir|), 4) + LittleEndian(tMin, 8) + LittleEndian(tMax, 8)
    + LittleEndian(crc(DirectoryBytes(dir)) as nat, 4) + LittleEndian(SEG_MAGIC, 4)
  }

  /** A segment file once finalized: the records, the directory, the trailer. */
  function FinalizedFile(crc: Checksum, body: seq<byte>, tMin: nat, tMax: nat, dir: seq<DirEntry>): (b: seq<byte>)
    ensures |b| == |body| + |dir| * DIR_ENTRY_LEN + TRAILER_LEN
  {
    body + DirectoryBytes(dir) + Trailer(crc, |body|, tMin, tMax, dir)
  }

  function EntryFrom(b: seq<byte>): (e: DirEntry)
    requires |b| == DIR_ENTRY_LEN
  {
    DirEntry(IdFrom(b[0..16]), FromLittleEndian(b[16..20]), FromLittleEndian(b[20..24]))
  }

  function EntriesFrom(b: seq<byte>, n: nat): (d: seq<DirEntry>)
    requires |b| == n * DIR_ENTRY_LEN
    ensures |d| == n
  {
    if n == 0 then [] else
      EntriesFrom(b[..(n - 1) * DIR_ENTRY_LEN], n - 1) + [EntryFrom(b[(n - 1) * DIR_ENTRY_LEN..])]
  }

  /** Parse a footer; None when the file carries no valid one. */
  function ReadFooter(crc: Checksum, file: seq<byte>): (r: Option<Footer>) {
    var size := |file|;
    if size < TRAILER_LEN then None else
      var t := file[size - TRAILER_LEN..];
      var footerOff := FromLittleEndian(t[0..8]);
      var count := FromLittleEndian(t[8..12]);
      var tMin := FromLittleEndian(t[12..20]);
      var tMax := FromLittleEndian(t[20..28]);
      if FromLittleEndian(t[32..36]) != SEG_MAGIC || tMin > MAX_INT64 || tMax > MAX_INT64 || footerOff > MAX_INT64
         || footerOff + count * DIR_ENTRY_LEN + TRAILER_LEN != size
      then None
      else
        var footer := file[footerOff..footerOff + count * DIR_ENTRY_LEN];
        if crc(footer) as nat != FromLittleEndian(t[28..32]) then None
        else Some(Footer(tMin, tMax, EntriesFrom(footer, count)))
  }

  ghost predicate FitsFooter(dir: seq<DirEntry>) {
    && |dir| < 0x1_0000_0000
    && (forall i :: 0 <= i < |dir| ==> dir[i].off < 0x1_0000_0000 && dir[i].length < 0x1_0000_0000)
  }

  lemma {:induction false} EntriesRoundTrip(dir: seq<DirEntry>)
    requires forall i :: 0 <= i < |dir| ==> dir[i].off < 0x1_0000_0000 && dir[i].length < 0x1_0000_0000
    ensures EntriesFrom(DirectoryBytes(dir), |dir|) == dir
  {
    if dir != [] {
      var init, e := dir[..|dir| - 1], dir[|dir| - 1];
      EntriesRoundTrip(init);
      var b := DirectoryBytes(dir);
      assert b[..(|dir| - 1) * DIR_ENTRY_LEN] == DirectoryBytes(init);
      assert b[(|dir| - 1) * DIR_ENTRY_LEN..] == EntryBytes(e);
      assert EntryBytes(e)[0..16] == LittleEndian(e.id as nat, 16);
      assert EntryBytes(e)[16..20] == LittleEndian(e.off, 4);
      assert EntryBytes(e)[20..24] == LittleEndian(e.length, 4);
      FieldRoundTrip(e.id as nat, 16);
      FieldRoundTrip(e.off, 4);
      FieldRoundTrip(e.length, 4);
    }
  }

  lemma TrailerSlices(a: seq<byte>, b: seq<byte>, c: seq<byte>, d: seq<byte>, e: seq<byte>, f: seq<byte>)
    requires |a| == 8 && |b| == 4 && |c| == 8 && |d| == 8 && |e| == 4 && |f| == 4
    ensures var t := a + b + c + d + e + f;
            && t[0..8] == a && t[8..12] == b && t[12..20] == c && t[20..28] == d && t[28..32] == e && t[32..36] == f
  {
  }

  lemma TrailerFields(crc: Checksum, footerOff: nat, tMin: nat, tMax: nat, dir: seq<DirEntry>)
    requires footerOff <= MAX_INT64 && tMin <= MAX_INT64 && tMax <= MAX_INT64 && |dir| < 0x1_0000_0000
    ensures var t := Trailer(crc, footerOff, tMin, tMax, dir);
            && FromLittleEndian(t[0..8]) == footerOff
            && FromLittleEndian(t[8..12]) == |dir|
            && FromLittleEndian(t[12..20]) == tMin
            && FromLittleEndian(t[20..28]) == tMax
            && FromLittleEndian(t[28..32]) == crc(DirectoryBytes(dir)) as nat
            && FromLittleEndian(t[32..36]) == SEG_MAGIC
  {
    hide LittleEndian, FromLittleEndian;
    var sum := crc(DirectoryBytes(dir)) as nat;
    TrailerSlices(LittleEndian(footerOff, 8), LittleEndian(|dir|, 4), LittleEndian(tMin, 8), LittleEndian(tMax, 8),
                  LittleEndian(sum, 4), LittleEndian(SEG_MAGIC, 4));
    FieldRoundTrip(footerOff, 8);
    FieldRoundTrip(|dir|, 4);
    FieldRoundTrip(tMin, 8);
    FieldRoundTrip(tMax, 8);
    FieldRoundTrip(sum, 4);
    FieldRoundTrip(SEG_MAGIC, 4);
  }

  /** What finalize wrote, readFooter reads: the time range and the directory, exactly. */
  lemma FooterRoundTrip(crc: Checksum, body: seq<byte>, tMin: nat, tMax: nat, dir: seq<DirEntry>)
    requires |body| <= MAX_INT64 && tMin <= MAX_INT64 && tMax <= MAX_INT64
    requires FitsFooter(dir)
    ensures ReadFooter(crc, FinalizedFile(crc, body, tMin, tMax, dir)) == Some(Footer(tMin, tMax, dir))
  {
    var file := FinalizedFile(crc, body, tMin, tMax, dir);
    var size := |file|;
    assert file[size - TRAILER_LEN..] == Trailer(crc, |body|, tMin, tMax, dir);
    TrailerFields(crc, |body|, tMin, tMax, dir);
    assert file[|body|..|body| + |dir| * DIR_ENTRY_LEN] == DirectoryBytes(dir);
    EntriesRoundTrip(dir);
  }
}
