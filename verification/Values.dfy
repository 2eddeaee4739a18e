/**
 Attribute values: the size pass, the message trees the write pass emits, and
 a reference decoder.
 */
module Values {
  import opened Types
  import opened Bytes
  import opened Wire

  type u64 = x: int | 0 <= x < 0x1_0000_0000_0000_0000
  type i64 = x: int | -0x8000_0000_0000_0000 <= x < 0x8000_0000_0000_0000

  /** An attribute value. Strings are their bytes, doubles their bit patterns, maps ordered entries. */
  datatype Value =
    | VStr(s: seq<byte>)
    | VBool(b: bool)
    | VInt(i: i64)
    | VDouble(bits: u64)
    | VSlice(items: seq<Value>)
    | VMap(entries: seq<Attr>)
    | VBytes(bytes: seq<byte>)
    | VEmpty

  datatype Attr = Attr(key: seq<byte>, value: Value)

  /** The varint bit pattern of a signed value: two's complement. */
  function I64Wire(v: i64): (u: u64)
    ensures u == if v >= 0 then v else v + TWO_64
  {
    if v >= 0 then v
    else
      var n := -(v + 1);
      TWO_64 - 1 - n
  }

  function FromI64Wire(u: nat): (v: Option<Value>) {
    if u < TWO_63 then Some(VInt(u)) else if u < TWO_64 then Some(VInt(u - TWO_64)) else None
  }

  // --------------------------------------------------------------- size pass

  function SizeValue(v: Value): (n: nat)
    decreases v
  {
    match v
    case VStr(s) => SizeLen(1, |s|)
    case VBool(_) => SizeKey(2) + 1
    case VInt(i) => SizeKey(3) + SizeUvarint(I64Wire(i))
    case VDouble(_) => SizeKey(4) + 8
    case VSlice(items) => SizeLen(5, SizeSlice(items))
    case VMap(entries) => SizeLen(6, SizeAttrs(1, entries))
    case VBytes(bytes) => SizeLen(7, |bytes|)
    case VEmpty => 0
  }

  function SizeSlice(items: seq<Value>): (n: nat)
    decreases items
  {
    if items == [] then 0 else SizeLen(1, SizeValue(items[0])) + SizeSlice(items[1..])
  }

  function SizeStr(num: nat, s: seq<byte>): (n: nat) {
    if s == [] then 0 else SizeLen(num, |s|)
  }

  function SizeKeyValue(a: Attr): (n: nat)
    decreases a
  {
    SizeStr(1, a.key) + SizeLen(2, SizeValue(a.value))
  }

  function SizeAttrs(num: nat, attrs: seq<Attr>): (n: nat)
    decreases attrs
  {
    if attrs == [] then 0 else SizeLen(num, SizeKeyValue(attrs[0])) + SizeAttrs(num, attrs[1..])
  }

  // -------------------------------------------------------------- write pass

  /** A string field, left out when empty. */
  function StrItems(num: nat, s: seq<byte>): (items: seq<Item>) {
    if s == [] then [] else [Blob(num, s)]
  }

  /** The message the write pass emits for a value. */
  function ValueItems(v: Value): (items: seq<Item>)
    decreases v
  {
    match v
    case VStr(s) => [Blob(1, s)]
    case VBool(b) => [Varint(2, if b then 1 else 0)]
    case VInt(i) => [Varint(3, I64Wire(i))]
    case VDouble(bits) => [Fixed64(4, bits)]
    case VSlice(items) => [Sub(5, SliceItems(items))]
    case VMap(entries) => [Sub(6, AttrItems(1, entries))]
    case VBytes(bytes) => if bytes == [] then [Unwritten(7)] else [Blob(7, bytes)]
    case VEmpty => []
  }

  function SliceItems(items: seq<Value>): (r: seq<Item>)
    ensures |r| == |items|
    decreases items
  {
    if items == [] then [] else [Sub(1, ValueItems(items[0]))] + SliceItems(items[1..])
  }

  function KeyValueItems(a: Attr): (items: seq<Item>)
    decreases a
  {
    StrItems(1, a.key) + [Sub(2, ValueItems(a.value))]
  }

  function AttrItems(num: nat, attrs: seq<Attr>): (items: seq<Item>)
    ensures |items| == |attrs|
    decreases attrs
  {
    if attrs == [] then [] else [Sub(num, KeyValueItems(attrs[0]))] + AttrItems(num, attrs[1..])
  }

  /** How many bytes values inside are empty. */
  function EmptyBytes(v: Value): (n: nat)
    decreases v
  {
    match v
    case VSlice(items) => EmptyBytesIn(items)
    case VMap(entries) => EmptyBytesOf(entries)
    case VBytes(bytes) => if bytes == [] then 1 else 0
    case _ => 0
  }

  function EmptyBytesIn(items: seq<Value>): (n: nat)
    decreases items
  {
    if items == [] then 0 else EmptyBytes(items[0]) + EmptyBytesIn(items[1..])
  }

  function EmptyBytesOf(attrs: seq<Attr>): (n: nat)
    decreases attrs
  {
    if attrs == [] then 0 else EmptyBytes(attrs[0].value) + EmptyBytesOf(attrs[1..])
  }

  function PutValue(v: Value): (b: seq<byte>) {
    EncItems(ValueItems(v))
  }

  // ---------------------------------------------------- the size pass is right

  /** The size pass computes the size of the tree; each empty bytes value leaves two bytes of it unwritten. */
  lemma {:induction false} ValueSizes(v: Value)
    ensures SizeItems(ValueItems(v)) == SizeValue(v)
    ensures Missing(ValueItems(v)) == 2 * EmptyBytes(v)
    decreases v
  {
    hide SizeKey, SizeUvarint, SizeLen;
    match v
    case VStr(s) => EncOne(Blob(1, s));
    case VBool(b) =>
      EncOne(Varint(2, if b then 1 else 0));
      SmallUvarint(if b then 1 else 0);
    case VInt(i) => EncOne(Varint(3, I64Wire(i)));
    case VDouble(bits) => EncOne(Fixed64(4, bits));
    case VSlice(items) =>
      EncOne(Sub(5, SliceItems(items)));
      SliceSizes(items);
    case VMap(entries) =>
      EncOne(Sub(6, AttrItems(1, entries)));
      AttrSizes(1, entries);
    case VBytes(bytes) =>
      EncOne(Unwritten(7));
      EncOne(Blob(7, bytes));
      EmptyFieldSize();
    case VEmpty =>
  }

  lemma SmallUvarint(v: nat)
    requires v < 128
    ensures SizeUvarint(v) == 1
  {
  }

  lemma EmptyFieldSize()
    ensures SizeLen(7, 0) == 2
  {
  }

  lemma {:induction false} SliceSizes(items: seq<Value>)
    ensures SizeItems(SliceItems(items)) == SizeSlice(items)
    ensures Missing(SliceItems(items)) == 2 * EmptyBytesIn(items)
    decreases items
  {
    hide SizeLen;
    if items != [] {
      ValueSizes(items[0]);
      SliceSizes(items[1..]);
      EncOne(Sub(1, ValueItems(items[0])));
      EncAppend([Sub(1, ValueItems(items[0]))], SliceItems(items[1..]));
    }
  }

  lemma {:induction false} KeyValueSizes(a: Attr)
    ensures SizeItems(KeyValueItems(a)) == SizeKeyValue(a)
    ensures Missing(KeyValueItems(a)) == 2 * EmptyBytes(a.value)
    decreases a
  {
    hide SizeLen;
    ValueSizes(a.value);
    StrSizes(1, a.key);
    EncOne(Sub(2, ValueItems(a.value)));
    EncAppend(StrItems(1, a.key), [Sub(2, ValueItems(a.value))]);
  }

  lemma StrSizes(num: nat, s: seq<byte>)
    ensures SizeItems(StrItems(num, s)) == SizeStr(num, s) && Missing(StrItems(num, s)) == 0
  {
    hide SizeLen;
    EncOne(Blob(num, s));
  }

  lemma {:induction false} AttrSizes(num: nat, attrs: seq<Attr>)
    ensures SizeItems(AttrItems(num, attrs)) == SizeAttrs(num, attrs)
    ensures Missing(AttrItems(num, attrs)) == 2 * EmptyBytesOf(attrs)
    decreases attrs
  {
    hide SizeLen;
    if attrs != [] {
      KeyValueSizes(attrs[0]);
      AttrSizes(num, attrs[1..]);
      EncOne(Sub(num, KeyValueItems(attrs[0])));
      EncAppend([Sub(num, KeyValueItems(attrs[0]))], AttrItems(num, attrs[1..]));
    }
  }

  /** Size and write pass agree exactly on the values without an empty bytes value inside. */
  lemma ValueTwoPass(v: Value)
    ensures |PutValue(v)| + 2 * EmptyBytes(v) == SizeValue(v)
    ensures |PutValue(v)| == SizeValue(v) <==> EmptyBytes(v) == 0
  {
    ValueSizes(v);
    TwoPass(ValueItems(v));
  }

  /** The smallest disagreement: an empty bytes value is sized as two bytes and written as none. */
  lemma EmptyBytesDisagree()
    ensures SizeValue(VBytes([])) == 2 && PutValue(VBytes([])) == []
  {
    ValueTwoPass(VBytes([]));
    EmptyFieldSize();
  }

  // ---------------------------------------------------------------- decoding

  /** Decode an AnyValue message; the last field set wins, no field is the empty value. */
  function DecodeValue(b: seq<byte>): (r: Option<Value>)
    decreases |b|, 0
  {
    match Parse(b)
    case None => None
    case Some(fs) =>
      if fs == [] then Some(VEmpty) else
        match fs[|fs| - 1]
        case FVarint(num, v) =>
          if num == 2 then Some(VBool(v != 0)) else if num == 3 then FromI64Wire(v) else None
        case FFixed64(num, v) => if num == 4 && v < TWO_64 then Some(VDouble(v)) else None
        case FFixed32(_, _) => None
        case FBytes(num, p) =>
          assert fs[|fs| - 1] in fs;
          if num == 1 then Some(VStr(p))
          else if num == 7 then Some(VBytes(p))
          else if num == 5 then DecodeSlice(p)
          else if num == 6 then DecodeMap(p)
          else None
  }

  function DecodeSlice(b: seq<byte>): (r: Option<Value>)
    decreases |b|, 2
  {
    match Parse(b)
    case None => None
    case Some(fs) =>
      match DecodeItems(fs, |b|)
      case None => None
      case Some(items) => Some(VSlice(items))
  }

  function DecodeItems(fs: seq<Field>, bound: nat): (r: Option<seq<Value>>)
    requires forall f :: f in fs && f.FBytes? ==> |f.bytes| < bound
    decreases bound, 1, |fs|
  {
    if fs == [] then Some([])
    else if !(fs[0].FBytes? && fs[0].num == 1) then None
    else
      assert fs[0] in fs;
      var v, rest := DecodeValue(fs[0].bytes), DecodeItems(fs[1..], bound);
      if v.None? || rest.None? then None else Some([v.value] + rest.value)
  }

  function DecodeMap(b: seq<byte>): (r: Option<Value>)
    decreases |b|, 2
  {
    match Parse(b)
    case None => None
    case Some(fs) =>
      match DecodeAttrs(fs, 1, |b|)
      case None => None
      case Some(attrs) => Some(VMap(attrs))
  }

  /** The attributes among the fields: every one must be numbered `num`. */
  function DecodeAttrs(fs: seq<Field>, num: nat, bound: nat): (r: Option<seq<Attr>>)
    requires forall f :: f in fs && f.FBytes? ==> |f.bytes| < bound
    decreases bound, 1, |fs|
  {
    if fs == [] then Some([])
    else if !(fs[0].FBytes? && fs[0].num == num) then None
    else
      assert fs[0] in fs;
      var a, rest := DecodeKeyValue(fs[0].bytes), DecodeAttrs(fs[1..], num, bound);
      if a.None? || rest.None? then None else Some([a.value] + rest.value)
  }

  /** A KeyValue message: an absent key is empty. */
  function DecodeKeyValue(b: seq<byte>): (r: Option<Attr>)
    decreases |b|, 0
  {
    match Parse(b)
    case None => None
    case Some(fs) =>
      if |fs| == 1 && fs[0].FBytes? && fs[0].num == 2 then
        assert fs[0] in fs;
        var v := DecodeValue(fs[0].bytes);
        if v.None? then None else Some(Attr([], v.value))
      else if |fs| == 2 && fs[0].FBytes? && fs[0].num == 1 && fs[1].FBytes? && fs[1].num == 2 then
        assert fs[1] in fs;
        var v := DecodeValue(fs[1].bytes);
        if v.None? then None else Some(Attr(fs[0].bytes, v.value))
      else None
  }

  // -------------------------------------------------------------- round trip

  lemma ValueItemsFit(v: Value)
    ensures forall i :: i in ValueItems(v) ==> Fits(i)
  {
  }

  lemma {:induction false} SliceItemsAre(items: seq<Value>)
    ensures forall k :: 0 <= k < |items| ==> SliceItems(items)[k] == Sub(1, ValueItems(items[k]))
    decreases items
  {
    if items != [] {
      SliceItemsAre(items[1..]);
    }
  }

  lemma {:induction false} AttrItemsAre(num: nat, attrs: seq<Attr>)
    ensures forall k :: 0 <= k < |attrs| ==> AttrItems(num, attrs)[k] == Sub(num, KeyValueItems(attrs[k]))
    decreases attrs
  {
    if attrs != [] {
      AttrItemsAre(num, attrs[1..]);
    }
  }

  /** Parsing a value's message gives its one field back. */
  lemma ParseValue(v: Value)
    requires EmptyBytes(v) == 0
    ensures forall i :: i in ValueItems(v) ==> !i.Unwritten?
    ensures Parse(PutValue(v)) == Some(FieldsOf(ValueItems(v)))
  {
    ValueSizes(v);
    ValueItemsFit(v);
    ParseBack(ValueItems(v));
  }

  lemma {:induction false} RoundTrip(v: Value)
    requires EmptyBytes(v) == 0
    ensures DecodeValue(PutValue(v)) == Some(v)
    decreases v
  {
    hide Parse, EncItems, Missing, SizeItems;
    ParseValue(v);
    match v
    case VSlice(items) => SliceRoundTrip(items);
    case VMap(entries) => MapRoundTrip(entries);
    case _ =>
  }

  lemma {:induction false} SliceRoundTrip(items: seq<Value>)
    requires EmptyBytesIn(items) == 0
    ensures DecodeSlice(EncItems(SliceItems(items))) == Some(VSlice(items))
    decreases items, 1
  {
    hide Parse, EncItems, Missing, SizeItems, SliceItems;
    var b := EncItems(SliceItems(items));
    SliceSizes(items);
    SliceItemsAre(items);
    ParseBack(SliceItems(items));
    ItemsRoundTrip(items, FieldsOf(SliceItems(items)), |b|);
  }

  lemma {:induction false} ItemsRoundTrip(items: seq<Value>, fs: seq<Field>, bound: nat)
    requires EmptyBytesIn(items) == 0
    requires |fs| == |items| && forall k :: 0 <= k < |fs| ==> fs[k] == FBytes(1, PutValue(items[k]))
    requires forall f :: f in fs && f.FBytes? ==> |f.bytes| < bound
    ensures DecodeItems(fs, bound) == Some(items)
    decreases items, 0
  {
    hide DecodeValue, PutValue;
    if items != [] {
      RoundTrip(items[0]);
      ItemsRoundTrip(items[1..], fs[1..], bound);
      assert items == [items[0]] + items[1..];
    }
  }

  lemma {:induction false} MapRoundTrip(attrs: seq<Attr>)
    requires EmptyBytesOf(attrs) == 0
    ensures DecodeMap(EncItems(AttrItems(1, attrs))) == Some(VMap(attrs))
    decreases attrs, 1
  {
    hide Parse, EncItems, Missing, SizeItems, AttrItems;
    var b := EncItems(AttrItems(1, attrs));
    AttrSizes(1, attrs);
    AttrItemsAre(1, attrs);
    ParseBack(AttrItems(1, attrs));
    AttrsRoundTrip(attrs, 1, FieldsOf(AttrItems(1, attrs)), |b|);
  }

  lemma {:induction false} AttrsRoundTrip(attrs: seq<Attr>, num: nat, fs: seq<Field>, bound: nat)
    requires EmptyBytesOf(attrs) == 0
    requires |fs| == |attrs| && forall k :: 0 <= k < |fs| ==> fs[k] == FBytes(num, EncItems(KeyValueItems(attrs[k])))
    requires forall f :: f in fs && f.FBytes? ==> |f.bytes| < bound
    ensures DecodeAttrs(fs, num, bound) == Some(attrs)
    decreases attrs, 0
  {
    hide DecodeKeyValue, EncItems, KeyValueItems;
    if attrs != [] {
      KeyValueRoundTrip(attrs[0]);
      AttrsRoundTrip(attrs[1..], num, fs[1..], bound);
      assert attrs == [attrs[0]] + attrs[1..];
    }
  }

  lemma {:induction false} KeyValueRoundTrip(a: Attr)
    requires EmptyBytes(a.value) == 0
    ensures DecodeKeyValue(EncItems(KeyValueItems(a))) == Some(a)
    decreases a
  {
    hide Parse, EncItems, Missing, SizeItems, DecodeValue;
    RoundTrip(a.value);
    KeyValueSizes(a);
    ParseBack(KeyValueItems(a));
  }

  /** A declared length that reaches past the end of the message is malformed. */
  lemma TruncatedFails(num: nat, n: nat, payload: seq<byte>)
    requires |payload| < n
    ensures Parse(Key(num, LENGTH) + Uvarint(n) + payload) == None
  {
    hide Key, Uvarint, ReadUvarint, ReadFixed;
    var b := Key(num, LENGTH) + Uvarint(n) + payload;
    assert b == Key(num, LENGTH) + (Uvarint(n) + payload);
    ReadKey(num, LENGTH, Uvarint(n) + payload);
    UvarintRoundTrip(n, payload);
  }

  /**
   The write pass is decodable exactly when no bytes value inside is empty:
   the reference decoder then recovers the original, negative ints included.
   Otherwise a length prefix counts bytes that were never written, or the
   value itself vanishes.
   */
  lemma RoundTripIff(v: Value)
    ensures DecodeValue(PutValue(v)) == Some(v) <==> EmptyBytes(v) == 0
  {
    hide Parse, Missing, DecodeSlice, DecodeMap;
    if EmptyBytes(v) == 0 {
      RoundTrip(v);
    } else {
      var items := ValueItems(v);
      ValueSizes(v);
      EncOne(items[0]);
      if v.VBytes? {
        ParseNothing();
      } else {
        var inner := items[0].items;
        EncOne(items[0]);
        TwoPass(inner);
        TruncatedFails(items[0].num, SizeItems(inner), EncItems(inner));
      }
    }
  }

  lemma ParseNothing()
    ensures Parse([]) == Some([])
  {
  }
}
