/**
 The Protocol Buffers wire format (Encoding guide, "Base 128 Varints" and
 "Length-Delimited Records"): message trees, their encoding with the lengths a
 separate size pass computes, and a reference parser.
 */
module Wire {
  import opened Types
  import opened Bytes

  const VARINT: nat := 0
  const FIXED64: nat := 1
  const LENGTH: nat := 2
  const FIXED32: nat := 5

  // ---------------------------------------------------------------- varints

  function Uvarint(v: nat): (b: seq<byte>)
    ensures |b| > 0
  {
    if v >= 0x80 then [(v % 128 + 128) as byte] + Uvarint(v / 128) else [v as byte]
  }

  function SizeUvarint(v: nat): (n: nat)
    ensures n > 0
  {
    if v >= 0x80 then 1 + SizeUvarint(v / 128) else 1
  }

  /** Read a varint off the front; the second part is what follows it. */
  function ReadUvarint(b: seq<byte>): (r: Option<(nat, seq<byte>)>)
    ensures r.Some? ==> |r.value.1| < |b|
  {
    if b == [] then None
    else if b[0] < 128 then Some((b[0] as nat, b[1..]))
    else
      match ReadUvarint(b[1..])
      case None => None
      case Some(p) => Some((b[0] as nat - 128 + 128 * p.0, p.1))
  }

  lemma {:induction false} UvarintSize(v: nat)
    ensures |Uvarint(v)| == SizeUvarint(v)
  {
    if v >= 0x80 {
      UvarintSize(v / 128);
    }
  }

  lemma {:induction false} UvarintRoundTrip(v: nat, rest: seq<byte>)
    ensures ReadUvarint(Uvarint(v) + rest) == Some((v, rest))
  {
    var b := Uvarint(v) + rest;
    if v >= 0x80 {
      UvarintRoundTrip(v / 128, rest);
      assert b[1..] == Uvarint(v / 128) + rest;
    } else {
      assert b[1..] == rest;
    }
  }

  function Key(num: nat, wire: nat): (b: seq<byte>) {
    Uvarint(num * 8 + wire)
  }

  function SizeKey(num: nat): (n: nat) {
    SizeUvarint(num * 8)
  }

  /** The wire type does not change a key's length. */
  lemma {:induction false} KeySize(num: nat, wire: nat)
    requires wire < 8
    ensures |Key(num, wire)| == SizeKey(num)
  {
    UvarintSize(num * 8 + wire);
    LowBits(num * 8, wire);
  }

  lemma LowBits(v: nat, low: nat)
    requires v % 8 == 0 && low < 8
    ensures SizeUvarint(v + low) == SizeUvarint(v)
  {
    if v >= 0x80 {
      assert (v + low) / 128 == v / 128;
    }
  }

  function SizeLen(num: nat, n: nat): (size: nat) {
    SizeKey(num) + SizeUvarint(n) + n
  }

  // ---------------------------------------------------------- message trees

  /**
   One field of a message. `Sub` is a nested message, whose length prefix is the
   size the size pass computed. `Unwritten` is a length-delimited field that the
   size pass counts as empty and the write pass leaves out.
   */
  datatype Item =
    | Varint(num: nat, v: nat)
    | Fixed64(num: nat, v: nat)
    | Fixed32(num: nat, v: nat)
    | Blob(num: nat, bytes: seq<byte>)
    | Sub(num: nat, items: seq<Item>)
    | Unwritten(num: nat)

  function SizeItem(i: Item): (n: nat)
    decreases i
  {
    match i
    case Varint(num, v) => SizeKey(num) + SizeUvarint(v)
    case Fixed64(num, _) => SizeKey(num) + 8
    case Fixed32(num, _) => SizeKey(num) + 4
    case Blob(num, bytes) => SizeLen(num, |bytes|)
    case Sub(num, items) => SizeLen(num, SizeItems(items))
    case Unwritten(num) => SizeLen(num, 0)
  }

  function SizeItems(items: seq<Item>): (n: nat)
    decreases items
  {
    if items == [] then 0 else SizeItem(items[0]) + SizeItems(items[1..])
  }

  function EncItem(i: Item): (b: seq<byte>)
    decreases i
  {
    match i
    case Varint(num, v) => Key(num, VARINT) + Uvarint(v)
    case Fixed64(num, v) => Key(num, FIXED64) + LittleEndian(v, 8)
    case Fixed32(num, v) => Key(num, FIXED32) + LittleEndian(v, 4)
    case Blob(num, bytes) => Key(num, LENGTH) + Uvarint(|bytes|) + bytes
    case Sub(num, items) => Key(num, LENGTH) + Uvarint(SizeItems(items)) + EncItems(items)
    case Unwritten(_) => []
  }

  function EncItems(items: seq<Item>): (b: seq<byte>)
    decreases items
  {
    if items == [] then [] else EncItem(items[0]) + EncItems(items[1..])
  }

  /** The bytes the size pass counts and the write pass leaves out. */
  function MissingItem(i: Item): (n: nat)
    decreases i
  {
    match i
    case Sub(_, items) => Missing(items)
    case Unwritten(num) => SizeLen(num, 0)
    case _ => 0
  }

  function Missing(items: seq<Item>): (n: nat)
    decreases items
  {
    if items == [] then 0 else MissingItem(items[0]) + Missing(items[1..])
  }

  /** The write pass emits exactly what the size pass computed, less the fields it leaves out, at every nesting level. */
  lemma {:induction false} TwoPassItem(i: Item)
    ensures |EncItem(i)| + MissingItem(i) == SizeItem(i)
    decreases i
  {
    match i
    case Varint(num, v) =>
      KeySize(num, VARINT);
      UvarintSize(v);
    case Fixed64(num, _) => KeySize(num, FIXED64);
    case Fixed32(num, _) => KeySize(num, FIXED32);
    case Blob(num, bytes) =>
      KeySize(num, LENGTH);
      UvarintSize(|bytes|);
    case Sub(num, items) =>
      KeySize(num, LENGTH);
      UvarintSize(SizeItems(items));
      TwoPass(items);
    case Unwritten(num) =>
  }

  lemma {:induction false} TwoPass(items: seq<Item>)
    ensures |EncItems(items)| + Missing(items) == SizeItems(items)
    decreases items
  {
    if items != [] {
      TwoPassItem(items[0]);
      TwoPass(items[1..]);
    }
  }

  // ------------------------------------------------------------ concatenation

  lemma {:induction false} EncAppend(a: seq<Item>, b: seq<Item>)
    ensures EncItems(a + b) == EncItems(a) + EncItems(b)
    ensures SizeItems(a + b) == SizeItems(a) + SizeItems(b)
    ensures Missing(a + b) == Missing(a) + Missing(b)
  {
    if a == [] {
      assert a + b == b;
    } else {
      assert (a + b)[1..] == a[1..] + b;
      EncAppend(a[1..], b);
    }
  }

  lemma EncOne(i: Item)
    ensures EncItems([i]) == EncItem(i) && SizeItems([i]) == SizeItem(i) && Missing([i]) == MissingItem(i)
  {
    assert [i][1..] == [];
  }

  // ---------------------------------------------------------------- parsing

  /** One field as a parser sees it. */
  datatype Field =
    | FVarint(num: nat, v: nat)
    | FFixed64(num: nat, v: nat)
    | FFixed32(num: nat, v: nat)
    | FBytes(num: nat, bytes: seq<byte>)

  function ReadFixed(b: seq<byte>, k: nat): (r: Option<(nat, seq<byte>)>)
    ensures r.Some? ==> |r.value.1| <= |b|
  {
    if |b| < k then None else Some((FromLittleEndian(b[..k]), b[k..]))
  }

  function ReadBytes(b: seq<byte>): (r: Option<(seq<byte>, seq<byte>)>)
    ensures r.Some? ==> |r.value.0| < |b| && |r.value.1| < |b|
  {
    match ReadUvarint(b)
    case None => None
    case Some(p) => if |p.1| < p.0 then None else Some((p.1[..p.0], p.1[p.0..]))
  }

  function ReadField(b: seq<byte>): (r: Option<(Field, seq<byte>)>)
    ensures r.Some? ==> |r.value.1| < |b| && (r.value.0.FBytes? ==> |r.value.0.bytes| < |b|)
  {
    match ReadUvarint(b)
    case None => None
    case Some(p) =>
      var num, wire, rest := p.0 / 8, p.0 % 8, p.1;
      if wire == VARINT then
        var x := ReadUvarint(rest); if x.None? then None else Some((FVarint(num, x.value.0), x.value.1))
      else if wire == FIXED64 then
        var x := ReadFixed(rest, 8); if x.None? then None else Some((FFixed64(num, x.value.0), x.value.1))
      else if wire == FIXED32 then
        var x := ReadFixed(rest, 4); if x.None? then None else Some((FFixed32(num, x.value.0), x.value.1))
      else if wire == LENGTH then
        var x := ReadBytes(rest); if x.None? then None else Some((FBytes(num, x.value.0), x.value.1))
      else None
  }

  /** The fields of a message, in order; `None` for malformed bytes. */
  function Parse(b: seq<byte>): (r: Option<seq<Field>>)
    ensures r.Some? ==> forall f :: f in r.value && f.FBytes? ==> |f.bytes| < |b|
    decreases |b|
  {
    if b == [] then Some([]) else
      match ReadField(b)
      case None => None
      case Some(p) =>
        match Parse(p.1)
        case None => None
        case Some(fs) => Some([p.0] + fs)
  }

  /** Values fit the width they are written at. */
  predicate Fits(i: Item) {
    match i
    case Fixed64(_, v) => v < TWO_64
    case Fixed32(_, v) => v < TWO_32
    case _ => true
  }

  /** The field a complete item parses as. */
  function FieldOf(i: Item): (f: Field)
    requires !i.Unwritten?
  {
    match i
    case Varint(num, v) => FVarint(num, v)
    case Fixed64(num, v) => FFixed64(num, v)
    case Fixed32(num, v) => FFixed32(num, v)
    case Blob(num, bytes) => FBytes(num, bytes)
    case Sub(num, items) => FBytes(num, EncItems(items))
  }

  function FieldsOf(items: seq<Item>): (fs: seq<Field>)
    requires forall i :: i in items ==> !i.Unwritten?
    ensures |fs| == |items|
    ensures forall k :: 0 <= k < |items| ==> fs[k] == FieldOf(items[k])
  {
    if items == [] then [] else [FieldOf(items[0])] + FieldsOf(items[1..])
  }

  lemma ReadKey(num: nat, wire: nat, rest: seq<byte>)
    requires wire < 8
    ensures ReadUvarint(Key(num, wire) + rest) == Some((num * 8 + wire, rest))
    ensures (num * 8 + wire) / 8 == num && (num * 8 + wire) % 8 == wire
  {
    UvarintRoundTrip(num * 8 + wire, rest);
  }

  lemma ReadLength(n: nat, payload: seq<byte>, rest: seq<byte>)
    requires n == |payload|
    ensures ReadBytes(Uvarint(n) + payload + rest) == Some((payload, rest))
  {
    UvarintRoundTrip(n, payload + rest);
    assert Uvarint(n) + payload + rest == Uvarint(n) + (payload + rest);
    assert (payload + rest)[..n] == payload && (payload + rest)[n..] == rest;
  }

  lemma ReadFixedBack(v: nat, k: nat, rest: seq<byte>)
    requires (k == 8 && v < TWO_64) || (k == 4 && v < TWO_32)
    ensures ReadFixed(LittleEndian(v, k) + rest, k) == Some((v, rest))
  {
    FieldRoundTrip(v, k);
    var b := LittleEndian(v, k) + rest;
    assert b[..k] == LittleEndian(v, k) && b[k..] == rest;
  }

  lemma ReadItem(i: Item, rest: seq<byte>)
    requires Fits(i) && MissingItem(i) == 0
    ensures !i.Unwritten?
    ensures ReadField(EncItem(i) + rest) == Some((FieldOf(i), rest))
  {
    hide LittleEndian, Uvarint, ReadUvarint, ReadFixed, ReadBytes, Key;
    var b := EncItem(i) + rest;
    match i
    case Varint(num, v) =>
      ReadKey(num, VARINT, Uvarint(v) + rest);
      UvarintRoundTrip(v, rest);
      assert b == Key(num, VARINT) + (Uvarint(v) + rest);
    case Fixed64(num, v) =>
      ReadKey(num, FIXED64, LittleEndian(v, 8) + rest);
      ReadFixedBack(v, 8, rest);
      assert b == Key(num, FIXED64) + (LittleEndian(v, 8) + rest);
    case Fixed32(num, v) =>
      ReadKey(num, FIXED32, LittleEndian(v, 4) + rest);
      ReadFixedBack(v, 4, rest);
      assert b == Key(num, FIXED32) + (LittleEndian(v, 4) + rest);
    case Blob(num, bytes) =>
      ReadKey(num, LENGTH, Uvarint(|bytes|) + bytes + rest);
      ReadLength(|bytes|, bytes, rest);
      assert b == Key(num, LENGTH) + (Uvarint(|bytes|) + bytes + rest);
    case Sub(num, items) =>
      TwoPass(items);
      ReadKey(num, LENGTH, Uvarint(SizeItems(items)) + EncItems(items) + rest);
      ReadLength(SizeItems(items), EncItems(items), rest);
      assert b == Key(num, LENGTH) + (Uvarint(SizeItems(items)) + EncItems(items) + rest);
    case Unwritten(num) =>
  }

  /** A message with nothing left out parses back to its fields, in order. */
  lemma {:induction false} ParseBack(items: seq<Item>)
    requires Missing(items) == 0 && forall i :: i in items ==> Fits(i)
    ensures forall i :: i in items ==> !i.Unwritten?
    ensures Parse(EncItems(items)) == Some(FieldsOf(items))
  {
    hide EncItem, ReadField, Fits, MissingItem, FieldOf;
    if items != [] {
      assert items[0] in items;
      ReadItem(items[0], EncItems(items[1..]));
      ParseBack(items[1..]);
      assert items == [items[0]] + items[1..];
      assert EncItems(items) != [] by {
        if EncItems(items) == [] { NothingReads(); }
      }
    }
  }

  lemma NothingReads()
    ensures ReadField([]) == None
  {
  }
}
