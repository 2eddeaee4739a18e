/**
 What an unwritten value does to a decoder: its declared bytes are taken from
 whatever follows, which is never what would make it read as an empty bytes value.
 */
module Faults {
  import opened Types
  import opened Bytes
  import opened Wire
  import opened Values
  import opened Spans
  import opened SpanDecode

  /** The key of an empty bytes value: field 7, length-delimited. */
  const BYTES_KEY: byte := 58

  // ---------------------------------------------------------------- payloads

  /** What a reader takes for a message followed by `rest`: as many bytes as its prefix declares. */
  function Seen(items: seq<Item>, rest: seq<byte>): (b: seq<byte>)
    requires |rest| >= Missing(items)
    ensures |b| == SizeItems(items)
  {
    TwoPass(items);
    (EncItems(items) + rest)[..SizeItems(items)]
  }

  lemma SeenIs(items: seq<Item>, rest: seq<byte>)
    ensures |rest| >= Missing(items) <==> |EncItems(items) + rest| >= SizeItems(items)
    ensures |rest| >= Missing(items) ==> Seen(items, rest) == (EncItems(items) + rest)[..SizeItems(items)]
  {
    TwoPass(items);
  }

  /** `b` begins with the declared `n` bytes of `whole`, or is all there is of it. */
  ghost predicate Agrees(b: seq<byte>, whole: seq<byte>, n: nat) {
    (n <= |whole| && n <= |b| && b[..n] == whole[..n]) || b == whole
  }

  /** Reading past a common head. */
  lemma AgreesAfter(b: seq<byte>, head: seq<byte>, body: seq<byte>, n: nat)
    requires Agrees(b, head + body, n) && |head| <= n
    ensures |head| <= |b| && b == head + b[|head|..] && Agrees(b[|head|..], body, n - |head|)
  {
    var whole := head + body;
    if n <= |whole| && n <= |b| && b[..n] == whole[..n] {
      assert b[..|head|] == b[..n][..|head|] == whole[..n][..|head|] == head;
      assert b[|head|..][..n - |head|] == b[..n][|head|..] == whole[..n][|head|..] == body[..n - |head|];
    } else {
      assert whole[|head|..] == body;
    }
  }

  /** A complete front parses as it was written, whatever follows. */
  lemma {:induction false} ParseGood(good: seq<Item>, tail: seq<byte>)
    requires Complete(good)
    ensures Parse(EncItems(good) + tail).None? <==> Parse(tail).None?
    ensures Parse(tail).Some? ==> Parse(EncItems(good) + tail) == Some(FieldsOf(good) + Parse(tail).value)
  {
    hide EncItem, ReadField, Complete, Parse, EncItems, FieldsOf, FieldOf, Fits, MissingItem;
    CompleteWhole(good);
    if good == [] {
      NothingFields();
      assert [] + tail == tail;
      if Parse(tail).Some? {
        assert [] + Parse(tail).value == Parse(tail).value;
      }
    } else {
      GoodRest(good);
      var b, rest := EncItems(good) + tail, EncItems(good[1..]) + tail;
      assert b == EncItem(good[0]) + rest;
      ReadItem(good[0], rest);
      ParseGood(good[1..], tail);
      if b == [] {
        NothingReads();
      }
      ParseStep(b, FieldOf(good[0]), rest);
      if Parse(tail).Some? {
        assert [FieldOf(good[0])] + (FieldsOf(good[1..]) + Parse(tail).value) == FieldsOf(good) + Parse(tail).value;
      }
    }
  }

  lemma GoodRest(good: seq<Item>)
    requires Complete(good) && good != []
    ensures Complete(good[1..]) && Fits(good[0]) && MissingItem(good[0]) == 0
    ensures EncItems(good) == EncItem(good[0]) + EncItems(good[1..])
    ensures FieldsOf(good) == [FieldOf(good[0])] + FieldsOf(good[1..])
  {
    assert good[0] in good;
    assert forall i :: i in good[1..] ==> i in good;
  }

  lemma ParseStep(b: seq<byte>, f: Field, rest: seq<byte>)
    requires b != [] && ReadField(b) == Some((f, rest))
    ensures Parse(b) == if Parse(rest).None? then None else Some([f] + Parse(rest).value)
  {
  }

  /** A nested message's header, then whatever is there. */
  lemma ParseHeader(num: nat, n: nat, t: seq<byte>)
    ensures Parse(Key(num, LENGTH) + Uvarint(n) + t)
         == if |t| < n || Parse(t[n..]).None? then None else Some([FBytes(num, t[..n])] + Parse(t[n..]).value)
  {
    hide Key, Uvarint, ReadUvarint;
    if |t| < n {
      TruncatedFails(num, n, t);
    } else {
      var b := Key(num, LENGTH) + Uvarint(n) + t;
      assert b == Key(num, LENGTH) + (Uvarint(n) + t);
      ReadKey(num, LENGTH, Uvarint(n) + t);
      assert Uvarint(n) + t == Uvarint(n) + t[..n] + t[n..];
      ReadLength(n, t[..n], t[n..]);
      assert b != [];
      ParseStep(b, FBytes(num, t[..n]), t[n..]);
    }
  }

  // ------------------------------------------------------ what comes after

  ghost predicate Clean(rest: seq<byte>) {
    rest == [] || rest[0] != BYTES_KEY
  }

  /** No field here has the key of a bytes value. */
  ghost predicate SafeKeys(items: seq<Item>) {
    forall i :: i in items ==> i.num != 7 || i.Varint? || i.Fixed64? || i.Fixed32?
  }

  lemma KeyIsNotBytesKey(num: nat, wire: nat)
    requires wire < 8 && (num != 7 || wire != LENGTH)
    ensures Key(num, wire) != [] && Key(num, wire)[0] != BYTES_KEY
  {
  }

  lemma CleanItem(i: Item, rest: seq<byte>)
    requires SafeKeys([i]) && Clean(rest)
    ensures Clean(EncItem(i) + rest)
  {
    assert i in [i];
    if !i.Unwritten? {
      var wire := if i.Varint? then VARINT else if i.Fixed64? then FIXED64 else if i.Fixed32? then FIXED32 else LENGTH;
      KeyIsNotBytesKey(i.num, wire);
      assert Key(i.num, wire) <= EncItem(i);
    } else {
      assert EncItem(i) + rest == rest;
    }
  }

  lemma {:induction false} CleanItems(items: seq<Item>, rest: seq<byte>)
    requires SafeKeys(items) && Clean(rest)
    ensures Clean(EncItems(items) + rest)
  {
    hide EncItem, EncItems, Clean;
    if items == [] {
      NoItems(rest);
    } else {
      assert items[0] in items && forall i :: i in items[1..] ==> i in items;
      CleanItems(items[1..], rest);
      CleanItem(items[0], EncItems(items[1..]) + rest);
      FirstItem(items, rest);
    }
  }

  lemma NoItems(rest: seq<byte>)
    ensures EncItems([]) + rest == rest
  {
    assert [] + rest == rest;
  }

  lemma FirstItem(items: seq<Item>, rest: seq<byte>)
    requires items != []
    ensures EncItems(items) + rest == EncItem(items[0]) + (EncItems(items[1..]) + rest)
  {
    hide EncItem;
  }

  // ------------------------------------------------------ the first fault

  /** Up to the first faulty message everything parses as written; that one takes bytes from behind it. */
  lemma FaultSeen(good: seq<Item>, num: nat, inner: seq<Item>, more: seq<Item>, rest: seq<byte>, b: seq<byte>)
    requires Complete(good)
    requires Agrees(b, EncItems(good + [Sub(num, inner)] + more) + rest, SizeItems(good + [Sub(num, inner)] + more))
    ensures var rest' := EncItems(more) + rest;
            Parse(b).None?
            || (|rest'| >= Missing(inner) && |Parse(b).value| > |good|
                && Parse(b).value[..|good|] == FieldsOf(good)
                && Parse(b).value[|good|] == FBytes(num, Seen(inner, rest')))
  {
    hide Parse, Complete, Key, Uvarint, EncItems, SizeItems, Missing, FieldsOf;
    var n, rest' := SizeItems(inner), EncItems(more) + rest;
    var head := EncItems(good) + (Key(num, LENGTH) + Uvarint(n));
    FaultBytes(good, num, inner, more, rest);
    AgreesAfter(b, head, EncItems(inner) + rest', SizeItems(good + [Sub(num, inner)] + more));
    hide Agrees, Seen;
    SeenIs(inner, rest');
    var t := b[|head|..];
    assert b == EncItems(good) + (Key(num, LENGTH) + Uvarint(n) + t);
    FaultParse(good, num, n, t);
    TwoPass(inner);
    if n <= |t| {
      AgreesUpTo(t, EncItems(inner) + rest', SizeItems(good + [Sub(num, inner)] + more) - |head|, n);
    }
  }

  lemma AgreesUpTo(b: seq<byte>, whole: seq<byte>, n: nat, m: nat)
    requires Agrees(b, whole, n) && m <= n && m <= |b|
    ensures m <= |whole| && b[..m] == whole[..m]
  {
    if n <= |whole| && n <= |b| && b[..n] == whole[..n] {
      assert b[..m] == b[..n][..m] && whole[..m] == whole[..n][..m];
    }
  }

  lemma FaultParse(good: seq<Item>, num: nat, n: nat, t: seq<byte>)
    requires Complete(good)
    ensures var p := Parse(EncItems(good) + (Key(num, LENGTH) + Uvarint(n) + t));
            p.None? || (n <= |t| && |p.value| > |good| && p.value[..|good|] == FieldsOf(good) && p.value[|good|] == FBytes(num, t[..n]))
  {
    hide Parse, Complete, Key, Uvarint, EncItems;
    CompleteWhole(good);
    ParseGood(good, Key(num, LENGTH) + Uvarint(n) + t);
    ParseHeader(num, n, t);
  }

  /** The bytes of a message around a nested one. */
  lemma FaultBytes(good: seq<Item>, num: nat, inner: seq<Item>, more: seq<Item>, rest: seq<byte>)
    requires Complete(good)
    ensures var n, items := SizeItems(inner), good + [Sub(num, inner)] + more;
            var head := EncItems(good) + (Key(num, LENGTH) + Uvarint(n));
            && EncItems(items) + rest == head + (EncItems(inner) + (EncItems(more) + rest))
            && |head| + n <= SizeItems(items)
  {
    hide Key, Uvarint, EncItems, SizeItems, Missing;
    var n := SizeItems(inner);
    EncAppend(good, [Sub(num, inner)]);
    EncAppend(good + [Sub(num, inner)], more);
    EncOne(Sub(num, inner));
    SubBytes(num, inner);
    TwoPass(good);
  }

  lemma SubBytes(num: nat, inner: seq<Item>)
    ensures EncItem(Sub(num, inner)) == Key(num, LENGTH) + Uvarint(SizeItems(inner)) + EncItems(inner)
    ensures SizeItem(Sub(num, inner)) == |Key(num, LENGTH) + Uvarint(SizeItems(inner))| + SizeItems(inner)
  {
    KeySize(num, LENGTH);
    UvarintSize(SizeItems(inner));
  }

  ghost predicate AllSubs(xs: seq<Item>, num: nat) {
    forall i :: i in xs ==> i.Sub? && i.num == num
  }

  lemma {:induction false} FirstFault(xs: seq<Item>) returns (k: nat)
    requires Missing(xs) > 0
    ensures k < |xs| && Missing(xs[..k]) == 0 && MissingItem(xs[k]) > 0
    ensures xs == xs[..k] + [xs[k]] + xs[k + 1..]
  {
    if MissingItem(xs[0]) > 0 {
      k := 0;
      assert xs[..0] == [];
    } else {
      var j := FirstFault(xs[1..]);
      k := j + 1;
      assert xs[..k] == [xs[0]] + xs[1..][..j];
      EncAppend([xs[0]], xs[1..][..j]);
      EncOne(xs[0]);
    }
  }

  lemma SubsComplete(xs: seq<Item>, num: nat)
    requires AllSubs(xs, num) && Missing(xs) == 0
    ensures Part(xs, num)
  {
  }

  /**
   Among repeated messages numbered `num`, behind fields that have other numbers:
   the first faulty one is found at its own place, with bytes from behind it.
   */
  lemma SubFault(good: seq<Item>, num: nat, xs: seq<Item>, tail: seq<Item>, rest: seq<byte>, b: seq<byte>)
      returns (k: nat, rest': seq<byte>)
    requires Complete(good) && Pick(FieldsOf(good), num) == []
    requires AllSubs(xs, num) && Missing(xs) > 0 && num != 7
    requires SafeKeys(tail) && Clean(rest)
    requires Agrees(b, EncItems(good + xs + tail) + rest, SizeItems(good + xs + tail))
    ensures k < |xs| && xs[k].Sub? && Missing(xs[k].items) > 0 && Clean(rest')
    ensures Parse(b).None?
            || (|rest'| >= Missing(xs[k].items) && k < |Pick(Parse(b).value, num)|
                && Pick(Parse(b).value, num)[k] == FBytes(num, Seen(xs[k].items, rest')))
  {
    k := FirstFault(xs);
    assert xs[k] in xs;
    var front, more := good + xs[..k], xs[k + 1..] + tail;
    assert good + xs + tail == front + [Sub(num, xs[k].items)] + more;
    assert AllSubs(xs[..k], num) && SafeKeys(more);
    rest' := EncItems(more) + rest;
    CleanItems(more, rest);
    SubsComplete(xs[..k], num);
    PartFields(xs[..k], num);
    MessageTwo(good, xs[..k]);
    PickOwn(FieldsOf(xs[..k]), num, num);
    FaultSeen(front, num, xs[k].items, more, rest, b);
    if Parse(b).Some? {
      PickAt(Parse(b).value, FieldsOf(front), FieldsOf(xs[..k]), num);
    }
  }

  lemma PickAt(fs: seq<Field>, front: seq<Field>, picked: seq<Field>, num: nat)
    requires |fs| > |front| && fs[..|front|] == front && Pick(front, num) == picked && fs[|front|].num == num
    ensures |Pick(fs, num)| > |picked| && Pick(fs, num)[|picked|] == fs[|front|]
  {
    hide Pick;
    PickNext(fs, |front|, num);
  }

  lemma {:induction false} PickNext(fs: seq<Field>, n: nat, num: nat)
    requires n < |fs| && fs[n].num == num
    ensures |Pick(fs, num)| > |Pick(fs[..n], num)| && Pick(fs, num)[|Pick(fs[..n], num)|] == fs[n]
  {
    if n > 0 {
      PickNext(fs[1..], n - 1, num);
      assert fs[1..][..n - 1] == fs[..n][1..];
    }
  }

  // ------------------------------------------------------------------ values

  lemma TwoByteValue(b: seq<byte>)
    requires |b| == 2 && b[0] != BYTES_KEY
    ensures DecodeValue(b) != Some(VBytes([]))
  {
    hide DecodeSlice, DecodeMap, Parse;
    TwoByteField(b);
    if Parse(b).Some? && Parse(b).value[0].FBytes? {
      NotBytes(Parse(b).value[0].bytes);
    }
  }

  lemma NotBytes(b: seq<byte>)
    ensures DecodeSlice(b).Some? ==> DecodeSlice(b).value.VSlice?
    ensures DecodeMap(b).Some? ==> DecodeMap(b).value.VMap?
  {
    hide DecodeItems, DecodeAttrs, Parse;
  }

  /** Two bytes hold one field at most, and a length-delimited one only if it is empty. */
  lemma TwoByteField(b: seq<byte>)
    requires |b| == 2
    ensures Parse(b).Some? ==> |Parse(b).value| == 1
    ensures Parse(b).Some? && Parse(b).value[0].FBytes? ==> b[0] < 128 && b[0] as nat == Parse(b).value[0].num * 8 + LENGTH
  {
    assert b[1..] == [b[1]] && [b[1]][1..] == [];
    var u := ReadUvarint(b);
    if b[0] >= 128 {
      assert ReadUvarint(b[1..]).Some? ==> ReadUvarint(b[1..]).value.1 == [];
      assert ReadUvarint([]) == None && ReadField(b) == None;
    } else {
      assert u == Some((b[0] as nat, [b[1]]));
      var x := ReadField(b);
      assert x.Some? ==> x.value.1 == [];
      ParseNothing();
    }
  }

  lemma SeenSub(num: nat, inner: seq<Item>, rest: seq<byte>)
    requires |rest| >= Missing(inner)
    ensures Missing([Sub(num, inner)]) == Missing(inner)
    ensures Parse(Seen([Sub(num, inner)], rest)) == Some([FBytes(num, Seen(inner, rest))])
  {
    hide Parse, Key, Uvarint;
    EncOne(Sub(num, inner));
    SubBytes(num, inner);
    TwoPass(inner);
    var n, header := SizeItems(inner), Key(num, LENGTH) + Uvarint(SizeItems(inner));
    var t := Seen(inner, rest);
    assert EncItems([Sub(num, inner)]) + rest == header + (EncItems(inner) + rest);
    HeadSlice(header, EncItems(inner) + rest, n);
    ParseHeader(num, n, t);
    assert t[n..] == [] && t[..n] == t;
    ParseNothing();
    assert [FBytes(num, t)] + [] == [FBytes(num, t)];
  }

  lemma HeadSlice(head: seq<byte>, body: seq<byte>, n: nat)
    requires n <= |body|
    ensures (head + body)[..|head| + n] == head + body[..n]
  {
  }

  lemma {:induction false} DecodeItemsAt(fs: seq<Field>, bound: nat, k: nat)
    requires forall f :: f in fs && f.FBytes? ==> |f.bytes| < bound
    requires DecodeItems(fs, bound).Some? && k < |fs|
    ensures |DecodeItems(fs, bound).value| == |fs| && fs[k].FBytes? && DecodeValue(fs[k].bytes) == Some(DecodeItems(fs, bound).value[k])
    decreases |fs|
  {
    hide DecodeValue;
    if k > 0 {
      DecodeItemsAt(fs[1..], bound, k - 1);
    } else if |fs| > 1 {
      DecodeItemsAt(fs[1..], bound, 0);
    }
  }

  lemma {:induction false} DecodeAttrsAt(fs: seq<Field>, num: nat, bound: nat, k: nat)
    requires forall f :: f in fs && f.FBytes? ==> |f.bytes| < bound
    requires DecodeAttrs(fs, num, bound).Some? && k < |fs|
    ensures |DecodeAttrs(fs, num, bound).value| == |fs| && fs[k].FBytes?
    ensures DecodeKeyValue(fs[k].bytes) == Some(DecodeAttrs(fs, num, bound).value[k])
    decreases |fs|
  {
    hide DecodeKeyValue;
    if k > 0 {
      DecodeAttrsAt(fs[1..], num, bound, k - 1);
    } else if |fs| > 1 {
      DecodeAttrsAt(fs[1..], num, bound, 0);
    }
  }
}
