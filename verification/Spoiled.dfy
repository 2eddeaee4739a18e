/**
 A message with an empty bytes value anywhere inside never decodes to what it was
 written from: value by value, message by message, up to whole fragments.
 */
module Spoiled {
  import opened Types
  import opened Bytes
  import opened Wire
  import opened Values
  import opened Spans
  import opened SpanGroups
  import opened SpanDecode
  import opened FragmentDecode
  import opened Faults

  // ------------------------------------------------------------------ values

  lemma {:induction false} ValueSpoiled(v: Value, rest: seq<byte>)
    requires EmptyBytes(v) > 0 && |rest| >= Missing(ValueItems(v)) && Clean(rest)
    ensures DecodeValue(Seen(ValueItems(v), rest)) != Some(v)
    decreases v, 1
  {
    match v
    case VBytes(_) => EmptySpoiled(rest);
    case VSlice(items) =>
      hide Parse, DecodeSlice, Seen, Missing, SliceItems;
      EncOne(Sub(5, SliceItems(items)));
      SeenSub(5, SliceItems(items), rest);
      SliceSpoiled(items, rest);
    case VMap(attrs) =>
      hide Parse, DecodeMap, Seen, Missing, AttrItems;
      EncOne(Sub(6, AttrItems(1, attrs)));
      SeenSub(6, AttrItems(1, attrs), rest);
      MapSpoiled(attrs, rest);
    case _ =>
  }

  lemma EmptySpoiled(rest: seq<byte>)
    requires |rest| >= Missing([Unwritten(7)]) && Clean(rest)
    ensures DecodeValue(Seen([Unwritten(7)], rest)) != Some(VBytes([]))
  {
    hide DecodeValue;
    EncOne(Unwritten(7));
    EmptyFieldSize();
    assert [] + rest == rest;
    TwoByteValue(rest[..2]);
  }

  /** The seen bytes of a message agree with what was written, as far as they were. */
  lemma SeenAgrees(items: seq<Item>, rest: seq<byte>)
    requires |rest| >= Missing(items)
    ensures Agrees(Seen(items, rest), EncItems(items) + rest, SizeItems(items))
  {
    SeenIs(items, rest);
  }

  lemma {:induction false} SliceSpoiled(items: seq<Value>, rest: seq<byte>)
    requires EmptyBytesIn(items) > 0 && |rest| >= Missing(SliceItems(items)) && Clean(rest)
    ensures DecodeSlice(Seen(SliceItems(items), rest)) != Some(VSlice(items))
    decreases items, 0
  {
    hide Seen, Parse, DecodeItems, Missing, SizeItems, EncItems;
    var xs, b := SliceItems(items), Seen(SliceItems(items), rest);
    SliceSizes(items);
    SliceItemsAre(items);
    SeenAgrees(xs, rest);
    AloneAgrees(xs, rest, b);
    var k, rest' := SubFault([], 1, xs, [], rest, b);
    ValueSizes(items[k]);
    if Parse(b).Some? {
      var fs := Parse(b).value;
      if DecodeItems(fs, |b|) == Some(items) {
        SliceAt(fs, |b|, items, k);
        ValueSpoiled(items[k], rest');
      }
    }
  }

  /** All of a slice's fields are its items, so picking by number loses none. */
  lemma SliceAt(fs: seq<Field>, bound: nat, items: seq<Value>, k: nat)
    requires forall f :: f in fs && f.FBytes? ==> |f.bytes| < bound
    requires DecodeItems(fs, bound) == Some(items) && k < |Pick(fs, 1)|
    ensures k < |items| && Pick(fs, 1)[k].FBytes? && DecodeValue(Pick(fs, 1)[k].bytes) == Some(items[k])
  {
    hide DecodeValue;
    ItemsNumbered(fs, bound);
    PickOwn(fs, 1, 1);
    DecodeItemsAt(fs, bound, k);
  }

  lemma {:induction false} ItemsNumbered(fs: seq<Field>, bound: nat)
    requires forall f :: f in fs && f.FBytes? ==> |f.bytes| < bound
    requires DecodeItems(fs, bound).Some?
    ensures Numbered(fs, 1)
    decreases |fs|
  {
    hide DecodeValue;
    if fs != [] {
      ItemsNumbered(fs[1..], bound);
      assert fs == [fs[0]] + fs[1..];
    }
  }

  /** A list of nested messages with nothing around it. */
  lemma AloneAgrees(xs: seq<Item>, rest: seq<byte>, b: seq<byte>)
    requires Agrees(b, EncItems(xs) + rest, SizeItems(xs))
    ensures Agrees(b, EncItems([] + xs + []) + rest, SizeItems([] + xs + []))
    ensures Complete([]) && FieldsOf([]) == [] && Pick([], 1) == [] && SafeKeys([])
  {
    assert [] + xs + [] == xs;
  }

  lemma {:induction false} MapSpoiled(attrs: seq<Attr>, rest: seq<byte>)
    requires EmptyBytesOf(attrs) > 0 && |rest| >= Missing(AttrItems(1, attrs)) && Clean(rest)
    ensures DecodeMap(Seen(AttrItems(1, attrs), rest)) != Some(VMap(attrs))
    decreases attrs, 1
  {
    hide Seen, Parse, DecodeAttrs, Missing, SizeItems, EncItems;
    var xs, b := AttrItems(1, attrs), Seen(AttrItems(1, attrs), rest);
    AttrSizes(1, attrs);
    AttrItemsAre(1, attrs);
    SeenAgrees(xs, rest);
    AloneAgrees(xs, rest, b);
    var k, rest' := SubFault([], 1, xs, [], rest, b);
    KeyValueSizes(attrs[k]);
    if Parse(b).Some? {
      var fs := Parse(b).value;
      if DecodeAttrs(fs, 1, |b|) == Some(attrs) {
        AttrsNumbered(fs, 1, |b|);
        PickOwn(fs, 1, 1);
        DecodeAttrsAt(fs, 1, |b|, k);
        KeyValueSpoiled(attrs[k], rest');
      }
    }
  }

  lemma {:induction false} AttrsNumbered(fs: seq<Field>, num: nat, bound: nat)
    requires forall f :: f in fs && f.FBytes? ==> |f.bytes| < bound
    requires DecodeAttrs(fs, num, bound).Some?
    ensures Numbered(fs, num)
    decreases |fs|
  {
    hide DecodeKeyValue;
    if fs != [] {
      AttrsNumbered(fs[1..], num, bound);
      assert fs == [fs[0]] + fs[1..];
    }
  }

  lemma {:induction false} KeyValueSpoiled(a: Attr, rest: seq<byte>)
    requires EmptyBytes(a.value) > 0 && |rest| >= Missing(KeyValueItems(a)) && Clean(rest)
    ensures DecodeKeyValue(Seen(KeyValueItems(a), rest)) != Some(a)
    decreases a
  {
    hide Seen, Parse, DecodeValue, Missing, SizeItems, EncItems, ValueItems, FieldsOf, Complete;
    var key, inner, b := StrItems(1, a.key), ValueItems(a.value), Seen(KeyValueItems(a), rest);
    SeenAgrees(KeyValueItems(a), rest);
    StrPart(1, a.key);
    PartFields(key, 1);
    CompleteWhole(key);
    assert key + [Sub(2, inner)] + [] == KeyValueItems(a);
    FaultSeen(key, 2, inner, [], rest, b);
    NothingFields();
    assert [] + rest == rest;
    if Parse(b).Some? && |rest| >= Missing(inner) {
      ValueSpoiled(a.value, rest);
    }
  }

  // --------------------------------------------------------------- messages

  lemma AttrsAreSafe(num: nat, attrs: seq<Attr>)
    requires num != 7
    ensures SafeKeys(AttrItems(num, attrs)) && AllSubs(AttrItems(num, attrs), num)
  {
    AttrItemsAre(num, attrs);
  }

  /** Attributes behind complete fields of other numbers: the first faulty one spoils the list. */
  lemma AttrsSpoiled(good: seq<Item>, num: nat, attrs: seq<Attr>, tail: seq<Item>, rest: seq<byte>, b: seq<byte>)
    requires Complete(good) && Pick(FieldsOf(good), num) == [] && num != 7
    requires EmptyBytesOf(attrs) > 0 && SafeKeys(tail) && Clean(rest)
    requires Agrees(b, EncItems(good + AttrItems(num, attrs) + tail) + rest, SizeItems(good + AttrItems(num, attrs) + tail))
    ensures Parse(b).None? || AttrsIn(Parse(b).value, num) != Some(attrs)
  {
    hide Seen, Parse, DecodeAttrs, Missing, SizeItems, EncItems, Complete, AttrItems, Pick, DecodeKeyValue, KeyValueItems;
    AttrSizes(num, attrs);
    AttrItemsAre(num, attrs);
    AttrsAreSafe(num, attrs);
    var k, rest' := SubFault(good, num, AttrItems(num, attrs), tail, rest, b);
    KeyValueSizes(attrs[k]);
    if Parse(b).Some? {
      var fs := Parse(b).value;
      if AttrsIn(fs, num) == Some(attrs) {
        DecodeAttrsAt(Pick(fs, num), num, Bound(Pick(fs, num)), k);
        KeyValueSpoiled(attrs[k], rest');
      }
    }
  }

  lemma NoneGood(num: nat)
    ensures Complete([]) && FieldsOf([]) == [] && Pick(FieldsOf([]), num) == []
  {
  }

  /** Whatever follows: a resource with an empty bytes value never decodes to itself. */
  lemma ResourceSpoiled(res: Resource, rest: seq<byte>, b: seq<byte>)
    requires EmptyBytesOf(res.attrs) > 0 && Clean(rest)
    requires Agrees(b, EncItems(ResourceItems(res)) + rest, SizeItems(ResourceItems(res)))
    ensures DecodeResource(b) != Some(res)
  {
    hide Parse, EncItems, SizeItems, Complete, AttrItems, AttrsIn, NumberIn, FieldsOf, Agrees;
    var tail := VarintItems(2, res.dropped);
    NoneGood(1);
    assert [] + AttrItems(1, res.attrs) + tail == ResourceItems(res);
    AttrsSpoiled([], 1, res.attrs, tail, rest, b);
  }

  lemma ScopeSpoiled(sc: Scope, rest: seq<byte>, b: seq<byte>)
    requires EmptyBytesOf(sc.attrs) > 0 && Clean(rest)
    requires Agrees(b, EncItems(ScopeItems(sc)) + rest, SizeItems(ScopeItems(sc)))
    ensures DecodeScope(b) != Some(sc)
  {
    hide Parse, EncItems, SizeItems, Complete, AttrItems, AttrsIn, NumberIn, StrIn, FieldsOf, Agrees, Part, Pick, StrItems;
    StrPart(1, sc.name);
    StrPart(2, sc.version);
    TwoParts(StrItems(1, sc.name), 1, StrItems(2, sc.version), 2, 3);
    AttrsSpoiled(StrItems(1, sc.name) + StrItems(2, sc.version), 3, sc.attrs, VarintItems(4, sc.dropped), rest, b);
  }

  /** Two parts numbered otherwise hold no field `num`. */
  lemma TwoParts(a: seq<Item>, m: nat, b: seq<Item>, n: nat, num: nat)
    requires Part(a, m) && Part(b, n) && num != m && num != n
    ensures Complete(a + b) && Pick(FieldsOf(a + b), num) == []
  {
    hide Part, Complete, Pick, FieldsOf;
    PartFields(a, m);
    PartFields(b, n);
    MessageTwo(a, b);
    PickOwn(FieldsOf(a), m, num);
    PickOwn(FieldsOf(b), n, num);
  }

  lemma EventSpoiled(ev: SpanEvent, rest: seq<byte>)
    requires EmptyBytesOf(ev.attrs) > 0 && Clean(rest) && |rest| >= Missing(EventItems(ev))
    ensures DecodeEvent(Seen(EventItems(ev), rest)) != Some(ev)
  {
    hide Parse, EncItems, SizeItems, Complete, AttrItems, AttrsIn, NumberIn, StrIn, FieldsOf, Agrees, Part, Pick, StrItems, Fixed64Items, Seen, Missing;
    SeenAgrees(EventItems(ev), rest);
    Fixed64Part(1, ev.timestamp);
    StrPart(2, ev.name);
    TwoParts(Fixed64Items(1, ev.timestamp), 1, StrItems(2, ev.name), 2, 3);
    AttrsSpoiled(Fixed64Items(1, ev.timestamp) + StrItems(2, ev.name), 3, ev.attrs, VarintItems(4, ev.dropped), rest, Seen(EventItems(ev), rest));
  }

  lemma LinkSpoiled(lk: Link, rest: seq<byte>)
    requires EmptyBytesOf(lk.attrs) > 0 && Clean(rest) && |rest| >= Missing(LinkItems(lk))
    ensures DecodeLink(Seen(LinkItems(lk), rest)) != Some(lk)
  {
    hide Parse, EncItems, SizeItems, Complete, AttrItems, AttrsIn, NumberIn, StrIn, FieldsOf, Agrees, Part, Pick, StrItems, Seen, Missing, IdFrom, Present;
    SeenAgrees(LinkItems(lk), rest);
    var s1, s2, s3 := StrItems(1, Present(lk.traceId)), StrItems(2, Present(lk.spanId)), StrItems(3, lk.state);
    StrPart(1, Present(lk.traceId));
    StrPart(2, Present(lk.spanId));
    StrPart(3, lk.state);
    TwoParts(s1, 1, s2, 2, 4);
    AnotherPart(s1 + s2, s3, 3, 4);
    AttrsSpoiled(s1 + s2 + s3, 4, lk.attrs, VarintItems(5, lk.dropped) + Fixed32Items(6, lk.flags) + [] + [], rest, Seen(LinkItems(lk), rest));
  }

  lemma AnotherPart(a: seq<Item>, b: seq<Item>, n: nat, num: nat)
    requires Complete(a) && Pick(FieldsOf(a), num) == [] && Part(b, n) && num != n
    ensures Complete(a + b) && Pick(FieldsOf(a + b), num) == []
  {
    hide Part, Complete, Pick, FieldsOf;
    PartFields(b, n);
    MessageTwo(a, b);
    PickOwn(FieldsOf(b), n, num);
  }

  // ------------------------------------------------------------------- lists

  lemma {:induction false} EventsAre(evs: seq<SpanEvent>)
    ensures |EventsItems(evs)| == |evs|
    ensures forall k :: 0 <= k < |evs| ==> EventsItems(evs)[k] == Sub(11, EventItems(evs[k]))
  {
    if evs != [] {
      EventsAre(evs[1..]);
    }
  }

  lemma {:induction false} DecodeEventsAt(fs: seq<Field>, k: nat)
    requires DecodeEvents(fs).Some? && k < |fs|
    ensures |DecodeEvents(fs).value| == |fs| && fs[k].FBytes? && DecodeEvent(fs[k].bytes) == Some(DecodeEvents(fs).value[k])
  {
    hide DecodeEvent;
    if k > 0 {
      DecodeEventsAt(fs[1..], k - 1);
    } else if |fs| > 1 {
      DecodeEventsAt(fs[1..], 0);
    }
  }

  lemma EventsSpoiled(good: seq<Item>, evs: seq<SpanEvent>, tail: seq<Item>, rest: seq<byte>, b: seq<byte>)
    requires Complete(good) && Pick(FieldsOf(good), 11) == []
    requires EmptyInEvents(evs) > 0 && SafeKeys(tail) && Clean(rest)
    requires Agrees(b, EncItems(good + EventsItems(evs) + tail) + rest, SizeItems(good + EventsItems(evs) + tail))
    ensures Parse(b).None? || DecodeEvents(Pick(Parse(b).value, 11)) != Some(evs)
  {
    hide Seen, Parse, DecodeEvents, Missing, SizeItems, EncItems, Complete, EventsItems, Pick, DecodeEvent, EventItems;
    EventsSized(evs);
    EventsAre(evs);
    var k, rest' := SubFault(good, 11, EventsItems(evs), tail, rest, b);
    EventSized(evs[k]);
    if Parse(b).Some? && DecodeEvents(Pick(Parse(b).value, 11)) == Some(evs) {
      DecodeEventsAt(Pick(Parse(b).value, 11), k);
      EventSpoiled(evs[k], rest');
    }
  }

  lemma {:induction false} LinksAre(lks: seq<Link>)
    ensures |LinksItems(lks)| == |lks|
    ensures forall k :: 0 <= k < |lks| ==> LinksItems(lks)[k] == Sub(13, LinkItems(lks[k]))
  {
    if lks != [] {
      LinksAre(lks[1..]);
    }
  }

  lemma {:induction false} DecodeLinksAt(fs: seq<Field>, k: nat)
    requires DecodeLinks(fs).Some? && k < |fs|
    ensures |DecodeLinks(fs).value| == |fs| && fs[k].FBytes? && DecodeLink(fs[k].bytes) == Some(DecodeLinks(fs).value[k])
  {
    hide DecodeLink;
    if k > 0 {
      DecodeLinksAt(fs[1..], k - 1);
    } else if |fs| > 1 {
      DecodeLinksAt(fs[1..], 0);
    }
  }

  lemma LinksSpoiled(good: seq<Item>, lks: seq<Link>, tail: seq<Item>, rest: seq<byte>, b: seq<byte>)
    requires Complete(good) && Pick(FieldsOf(good), 13) == []
    requires EmptyInLinks(lks) > 0 && SafeKeys(tail) && Clean(rest)
    requires Agrees(b, EncItems(good + LinksItems(lks) + tail) + rest, SizeItems(good + LinksItems(lks) + tail))
    ensures Parse(b).None? || DecodeLinks(Pick(Parse(b).value, 13)) != Some(lks)
  {
    hide Seen, Parse, DecodeLinks, Missing, SizeItems, EncItems, Complete, LinksItems, Pick, DecodeLink, LinkItems;
    LinksSized(lks);
    LinksAre(lks);
    var k, rest' := SubFault(good, 13, LinksItems(lks), tail, rest, b);
    LinkSized(lks[k]);
    if Parse(b).Some? && DecodeLinks(Pick(Parse(b).value, 13)) == Some(lks) {
      DecodeLinksAt(Pick(Parse(b).value, 13), k);
      LinkSpoiled(lks[k], rest');
    }
  }

  // ------------------------------------------------------------------- spans

  /** The parts of a span after its attributes, none with the key of a bytes value. */
  lemma SpanTailSafe(sp: Span)
    ensures SafeKeys(VarintItems(10, sp.droppedAttrs) + EventsItems(sp.events) + VarintItems(12, sp.droppedEvents)
                     + (LinksItems(sp.links) + VarintItems(14, sp.droppedLinks) + StatusField(sp.status) + Fixed32Items(16, sp.flags)))
    ensures SafeKeys(VarintItems(12, sp.droppedEvents)
                     + (LinksItems(sp.links) + VarintItems(14, sp.droppedLinks) + StatusField(sp.status) + Fixed32Items(16, sp.flags)))
    ensures SafeKeys(VarintItems(14, sp.droppedLinks) + StatusField(sp.status) + Fixed32Items(16, sp.flags))
  {
    PartsSafe(sp);
    hide SafeKeys, VarintItems, EventsItems, LinksItems, StatusField, Fixed32Items;
    var d := VarintItems(14, sp.droppedLinks) + StatusField(sp.status) + Fixed32Items(16, sp.flags);
    var d' := LinksItems(sp.links) + VarintItems(14, sp.droppedLinks) + StatusField(sp.status) + Fixed32Items(16, sp.flags);
    SafeJoin(VarintItems(14, sp.droppedLinks), StatusField(sp.status));
    SafeJoin(VarintItems(14, sp.droppedLinks) + StatusField(sp.status), Fixed32Items(16, sp.flags));
    SafeJoin(LinksItems(sp.links), VarintItems(14, sp.droppedLinks));
    SafeJoin(LinksItems(sp.links) + VarintItems(14, sp.droppedLinks), StatusField(sp.status));
    SafeJoin(LinksItems(sp.links) + VarintItems(14, sp.droppedLinks) + StatusField(sp.status), Fixed32Items(16, sp.flags));
    SafeJoin(VarintItems(12, sp.droppedEvents), d');
    SafeJoin(VarintItems(10, sp.droppedAttrs), EventsItems(sp.events));
    SafeJoin(VarintItems(10, sp.droppedAttrs) + EventsItems(sp.events), VarintItems(12, sp.droppedEvents));
    SafeJoin(VarintItems(10, sp.droppedAttrs) + EventsItems(sp.events) + VarintItems(12, sp.droppedEvents), d');
  }

  lemma SafeJoin(a: seq<Item>, b: seq<Item>)
    requires SafeKeys(a) && SafeKeys(b)
    ensures SafeKeys(a + b)
  {
  }

  lemma PartsSafe(sp: Span)
    ensures SafeKeys(VarintItems(10, sp.droppedAttrs)) && SafeKeys(EventsItems(sp.events)) && SafeKeys(VarintItems(12, sp.droppedEvents))
    ensures SafeKeys(LinksItems(sp.links)) && SafeKeys(VarintItems(14, sp.droppedLinks)) && SafeKeys(StatusField(sp.status))
    ensures SafeKeys(Fixed32Items(16, sp.flags))
  {
    hide EventItems, LinkItems, EventsItems, LinksItems;
    EventsAre(sp.events);
    LinksAre(sp.links);
  }

  /** What stands in front of each repeated part of a span is complete and numbered otherwise. */
  lemma SpanFronts(sp: Span)
    ensures var a := StrItems(1, Present(sp.traceId)) + StrItems(2, Present(sp.spanId)) + StrItems(3, sp.state) + StrItems(4, Present(sp.parentId));
            var b := StrItems(5, sp.name) + VarintItems(6, I64Wire(sp.kind)) + Fixed64Items(7, sp.start) + Fixed64Items(8, sp.end);
            && Complete(a + b) && Pick(FieldsOf(a + b), 9) == []
            && (EmptyBytesOf(sp.attrs) == 0 ==>
                  && Complete(a + b + AttrItems(9, sp.attrs) + VarintItems(10, sp.droppedAttrs))
                  && Pick(FieldsOf(a + b + AttrItems(9, sp.attrs) + VarintItems(10, sp.droppedAttrs)), 11) == [])
            && (EmptyBytesOf(sp.attrs) == 0 && EmptyInEvents(sp.events) == 0 ==>
                  var f := a + b + AttrItems(9, sp.attrs) + VarintItems(10, sp.droppedAttrs) + EventsItems(sp.events) + VarintItems(12, sp.droppedEvents);
                  Complete(f) && Pick(FieldsOf(f), 13) == [])
  {
    hide Part, Complete, Pick, FieldsOf, StrItems, VarintItems, Fixed64Items, AttrItems, EventsItems, Present, IdFrom, StrIn, NumberIn, FromI32;
    var a := StrItems(1, Present(sp.traceId)) + StrItems(2, Present(sp.spanId)) + StrItems(3, sp.state) + StrItems(4, Present(sp.parentId));
    var b := StrItems(5, sp.name) + VarintItems(6, I64Wire(sp.kind)) + Fixed64Items(7, sp.start) + Fixed64Items(8, sp.end);
    SpanHead(sp);
    CompleteWhole(a);
    CompleteWhole(b);
    MessageTwo(a, b);
    CompleteWhole(a + b);
    ScalarPart(10, sp.droppedAttrs);
    ScalarPart(12, sp.droppedEvents);
    if EmptyBytesOf(sp.attrs) == 0 {
      AttrsPart(9, sp.attrs);
      AnotherPart(a + b, AttrItems(9, sp.attrs), 9, 11);
      AnotherPart(a + b + AttrItems(9, sp.attrs), VarintItems(10, sp.droppedAttrs), 10, 11);
      if EmptyInEvents(sp.events) == 0 {
        EventsBack(sp.events);
        AnotherPart(a + b, AttrItems(9, sp.attrs), 9, 13);
        AnotherPart(a + b + AttrItems(9, sp.attrs), VarintItems(10, sp.droppedAttrs), 10, 13);
        AnotherPart(a + b + AttrItems(9, sp.attrs) + VarintItems(10, sp.droppedAttrs), EventsItems(sp.events), 11, 13);
        AnotherPart(a + b + AttrItems(9, sp.attrs) + VarintItems(10, sp.droppedAttrs) + EventsItems(sp.events), VarintItems(12, sp.droppedEvents), 12, 13);
      }
    }
  }

  /** A span's parts, regrouped around each repeated one. */
  lemma SpanRegrouped(sp: Span)
    ensures var a := StrItems(1, Present(sp.traceId)) + StrItems(2, Present(sp.spanId)) + StrItems(3, sp.state) + StrItems(4, Present(sp.parentId));
            var b := StrItems(5, sp.name) + VarintItems(6, I64Wire(sp.kind)) + Fixed64Items(7, sp.start) + Fixed64Items(8, sp.end);
            var d := VarintItems(14, sp.droppedLinks) + StatusField(sp.status) + Fixed32Items(16, sp.flags);
            var d' := LinksItems(sp.links) + VarintItems(14, sp.droppedLinks) + StatusField(sp.status) + Fixed32Items(16, sp.flags);
            && SpanItems(sp) == (a + b) + AttrItems(9, sp.attrs)
               + (VarintItems(10, sp.droppedAttrs) + EventsItems(sp.events) + VarintItems(12, sp.droppedEvents) + d')
            && SpanItems(sp) == (a + b + AttrItems(9, sp.attrs) + VarintItems(10, sp.droppedAttrs)) + EventsItems(sp.events)
               + (VarintItems(12, sp.droppedEvents) + d')
            && SpanItems(sp) == (a + b + AttrItems(9, sp.attrs) + VarintItems(10, sp.droppedAttrs) + EventsItems(sp.events)
                                 + VarintItems(12, sp.droppedEvents)) + LinksItems(sp.links) + d
  {
    hide StrItems, VarintItems, Fixed64Items, Fixed32Items, AttrItems, EventsItems, LinksItems, StatusField, Present;
  }

  lemma SpanSpoiled(sp: Span, rest: seq<byte>)
    requires EmptyInSpan(sp) > 0 && Clean(rest) && |rest| >= Missing(SpanItems(sp))
    ensures DecodeSpan(Seen(SpanItems(sp), rest)) != Some(sp)
  {
    hide Parse, Seen, Missing, SpanItems, EncItems, SizeItems, Agrees, Complete, Pick, FieldsOf, AttrsIn, DecodeEvents, DecodeLinks, DecodeStatus;
    hide StrIn, MsgIn, NumberIn, IdFrom, FromI32, StrItems, VarintItems, Fixed64Items, Fixed32Items, AttrItems, EventsItems, LinksItems, StatusField, Present, SafeKeys;
    var b := Seen(SpanItems(sp), rest);
    SeenAgrees(SpanItems(sp), rest);
    SpanTailSafe(sp);
    SpanFronts(sp);
    SpanRegrouped(sp);
    var h := StrItems(1, Present(sp.traceId)) + StrItems(2, Present(sp.spanId)) + StrItems(3, sp.state) + StrItems(4, Present(sp.parentId))
             + (StrItems(5, sp.name) + VarintItems(6, I64Wire(sp.kind)) + Fixed64Items(7, sp.start) + Fixed64Items(8, sp.end));
    var d := VarintItems(14, sp.droppedLinks) + StatusField(sp.status) + Fixed32Items(16, sp.flags);
    var d' := LinksItems(sp.links) + VarintItems(14, sp.droppedLinks) + StatusField(sp.status) + Fixed32Items(16, sp.flags);
    if EmptyBytesOf(sp.attrs) > 0 {
      AttrsSpoiled(h, 9, sp.attrs, VarintItems(10, sp.droppedAttrs) + EventsItems(sp.events) + VarintItems(12, sp.droppedEvents) + d', rest, b);
    } else if EmptyInEvents(sp.events) > 0 {
      EventsSpoiled(h + AttrItems(9, sp.attrs) + VarintItems(10, sp.droppedAttrs), sp.events, VarintItems(12, sp.droppedEvents) + d', rest, b);
    } else {
      LinksSpoiled(h + AttrItems(9, sp.attrs) + VarintItems(10, sp.droppedAttrs) + EventsItems(sp.events) + VarintItems(12, sp.droppedEvents),
                   sp.links, d, rest, b);
    }
  }

  // --------------------------------------------------------------- fragments

  lemma {:induction false} SpansAre(spans: seq<Span>, refs: seq<SpanRef>)
    requires NameSpans(spans, refs)
    ensures forall k :: 0 <= k < |refs| ==> SpansItems(spans, refs)[k] == Sub(2, SpanItems(SpansAt(spans, refs)[k]))
  {
    hide SpanItems;
    if refs != [] {
      SpansAre(spans, refs[1..]);
    }
  }

  lemma {:induction false} SpansMissing(spans: seq<Span>, refs: seq<SpanRef>, k: nat)
    requires NameSpans(spans, refs) && k < |refs|
    ensures Missing(SpanItems(SpansAt(spans, refs)[k])) == 2 * EmptyInSpan(SpansAt(spans, refs)[k])
  {
    SpanSized(SpansAt(spans, refs)[k]);
  }

  lemma {:induction false} DecodeSpansAt(fs: seq<Field>, k: nat)
    requires DecodeSpans(fs).Some? && k < |fs|
    ensures |DecodeSpans(fs).value| == |fs| && fs[k].FBytes? && DecodeSpan(fs[k].bytes) == Some(DecodeSpans(fs).value[k])
  {
    hide DecodeSpan;
    if k > 0 {
      DecodeSpansAt(fs[1..], k - 1);
    } else if |fs| > 1 {
      DecodeSpansAt(fs[1..], 0);
    }
  }

  /** The first occurrence's bytes come first in a merged message. */
  lemma MergedFront(fs: seq<Field>, num: nat)
    requires Pick(fs, num) != [] && Pick(fs, num)[0].FBytes?
    ensures Pick(fs, num)[0].bytes <= MsgIn(fs, num)
  {
  }

  lemma PrefixAgrees(items: seq<Item>, rest: seq<byte>, b: seq<byte>)
    requires |rest| >= Missing(items) && Seen(items, rest) <= b
    ensures Agrees(b, EncItems(items) + rest, SizeItems(items))
  {
    SeenIs(items, rest);
  }

  lemma SubIsComplete(num: nat, items: seq<Item>, other: nat)
    requires Complete(items) && other != num
    ensures Complete([Sub(num, items)]) && Pick(FieldsOf([Sub(num, items)]), other) == []
  {
    hide Complete, Pick;
    SubPart(num, items);
    PartFields([Sub(num, items)], num);
    PickOwn(FieldsOf([Sub(num, items)]), num, other);
  }

  /** A nested message in front that is itself faulty. */
  lemma FrontFault(inner: seq<Item>, tail: seq<Item>, rest: seq<byte>, b: seq<byte>) returns (rest': seq<byte>)
    requires Missing(inner) > 0 && SafeKeys(tail) && Clean(rest)
    requires Agrees(b, EncItems([Sub(1, inner)] + tail) + rest, SizeItems([Sub(1, inner)] + tail))
    ensures Clean(rest')
    ensures Parse(b).None? || (|rest'| >= Missing(inner) && Agrees(MsgIn(Parse(b).value, 1), EncItems(inner) + rest', SizeItems(inner)))
  {
    hide Parse, EncItems, SizeItems, Missing, Complete, Seen, Pick, MsgIn, Agrees;
    var xs := [Sub(1, inner)];
    NoneGood(1);
    FrontMissing(inner);
    assert [] + xs + tail == xs + tail;
    var k;
    k, rest' := SubFault([], 1, xs, tail, rest, b);
    if Parse(b).Some? {
      MergedFront(Parse(b).value, 1);
      PrefixAgrees(inner, rest', MsgIn(Parse(b).value, 1));
    }
  }

  lemma FrontMissing(inner: seq<Item>)
    ensures Missing([Sub(1, inner)]) == Missing(inner) && AllSubs([Sub(1, inner)], 1)
  {
    EncOne(Sub(1, inner));
  }

  lemma ScopeSpansSpoiled(ss: ScopeSpans, refs: seq<SpanRef>, rest: seq<byte>)
    requires NameSpans(ss.spans, refs) && Clean(rest) && |rest| >= Missing(SSItems(ss, refs)) > 0
    ensures DecodeScopeSpans(Seen(SSItems(ss, refs), rest)) != Some(ScopeSpans(ss.scope, SpansAt(ss.spans, refs), ss.schema))
  {
    hide Parse, Seen, Missing, EncItems, SizeItems, Agrees, Complete, Pick, FieldsOf, StrIn, MsgIn, DecodeScope, DecodeSpans, DecodeSpan;
    hide ScopeItems, SpanItems, SpansItems, StrItems, SafeKeys, SpansAt;
    var b, spans, tail := Seen(SSItems(ss, refs), rest), SpansItems(ss.spans, refs), StrItems(3, ss.schema);
    var scope := ScopeItems(ss.scope);
    SeenAgrees(SSItems(ss, refs), rest);
    SSRunSized(ss, refs);
    ScopeSized(ss.scope);
    SpansSized(ss.spans, refs);
    SpansSafe(ss, refs);
    if EmptyBytesOf(ss.scope.attrs) > 0 {
      assert SSItems(ss, refs) == [Sub(1, scope)] + (spans + tail);
      var rest' := FrontFault(scope, spans + tail, rest, b);
      if Parse(b).Some? {
        ScopeSpoiled(ss.scope, rest', MsgIn(Parse(b).value, 1));
      }
    } else {
      ScopeBack(ss.scope);
      SubIsComplete(1, scope, 2);
      var k, rest' := SubFault([Sub(1, scope)], 2, spans, tail, rest, b);
      SpansAre(ss.spans, refs);
      SpansMissing(ss.spans, refs, k);
      if Parse(b).Some? && DecodeSpans(Pick(Parse(b).value, 2)) == Some(SpansAt(ss.spans, refs)) {
        DecodeSpansAt(Pick(Parse(b).value, 2), k);
        SpanSpoiled(SpansAt(ss.spans, refs)[k], rest');
      }
    }
  }

  lemma SpansSafe(ss: ScopeSpans, refs: seq<SpanRef>)
    requires NameSpans(ss.spans, refs)
    ensures AllSubs(SpansItems(ss.spans, refs), 2)
    ensures SafeKeys(StrItems(3, ss.schema)) && SafeKeys(SpansItems(ss.spans, refs) + StrItems(3, ss.schema))
  {
    hide SpanItems, SpansAt;
    SpansAre(ss.spans, refs);
  }

  /** Scope run `k` of a resource run, as written and as it should decode. */
  lemma {:induction false} ScopeRunAt(rs: ResourceSpans, refs: seq<SpanRef>, k: nat) returns (ss: ScopeSpans, run: seq<SpanRef>)
    requires NameScopes(rs, refs) && k < |SSRunsItems(rs, refs)|
    ensures NameSpans(ss.spans, run)
    ensures SSRunsItems(rs, refs)[k] == Sub(2, SSItems(ss, run))
    ensures |ScopeRuns(rs, refs)| == |SSRunsItems(rs, refs)|
    ensures ScopeRuns(rs, refs)[k] == ScopeSpans(ss.scope, SpansAt(ss.spans, run), ss.schema)
    decreases |refs|
  {
    hide SSItems, SpansAt;
    var j := ScopeRun(refs);
    if k == 0 {
      ss, run := rs.scopes[refs[0].ss], refs[..j];
      ScopeRunCount(rs, refs);
    } else {
      ss, run := ScopeRunAt(rs, refs[j..], k - 1);
    }
  }

  lemma {:induction false} ScopeRunCount(rs: ResourceSpans, refs: seq<SpanRef>)
    requires NameScopes(rs, refs)
    ensures |ScopeRuns(rs, refs)| == |SSRunsItems(rs, refs)|
    decreases |refs|
  {
    hide SSItems, SpansAt;
    if refs != [] {
      ScopeRunCount(rs, refs[ScopeRun(refs)..]);
    }
  }

  lemma {:induction false} ScopeRunsSafe(rs: ResourceSpans, refs: seq<SpanRef>)
    requires NameScopes(rs, refs)
    ensures AllSubs(SSRunsItems(rs, refs), 2)
    decreases |refs|
  {
    hide SSItems;
    if refs != [] {
      ScopeRunsSafe(rs, refs[ScopeRun(refs)..]);
    }
  }

  lemma {:induction false} DecodeScopesAt(fs: seq<Field>, k: nat)
    requires DecodeScopes(fs).Some? && k < |fs|
    ensures |DecodeScopes(fs).value| == |fs| && fs[k].FBytes? && DecodeScopeSpans(fs[k].bytes) == Some(DecodeScopes(fs).value[k])
  {
    hide DecodeScopeSpans;
    if k > 0 {
      DecodeScopesAt(fs[1..], k - 1);
    } else if |fs| > 1 {
      DecodeScopesAt(fs[1..], 0);
    }
  }

  lemma RunsTailSafe(runs: seq<Item>, schema: seq<byte>)
    requires AllSubs(runs, 2)
    ensures SafeKeys(StrItems(3, schema)) && SafeKeys(runs + StrItems(3, schema))
  {
  }

  lemma ResourceSpansSpoiled(rs: ResourceSpans, refs: seq<SpanRef>, rest: seq<byte>)
    requires NameScopes(rs, refs) && Clean(rest) && |rest| >= Missing(RSItems(rs, refs)) > 0
    ensures DecodeResourceSpans(Seen(RSItems(rs, refs), rest)) != Some(ResourceSpans(rs.resource, ScopeRuns(rs, refs), rs.schema))
  {
    hide Parse, Seen, Missing, EncItems, SizeItems, Agrees, Complete, Pick, FieldsOf, StrIn, MsgIn, DecodeResource, DecodeScopes, DecodeScopeSpans;
    hide ResourceItems, SSRunsItems, SSItems, StrItems, SafeKeys, ScopeRuns, EmptyInScopes, NameScopes;
    var b, runs, tail := Seen(RSItems(rs, refs), rest), SSRunsItems(rs, refs), StrItems(3, rs.schema);
    var resource := ResourceItems(rs.resource);
    SeenAgrees(RSItems(rs, refs), rest);
    RSRunSized(rs, refs);
    ResourceSized(rs.resource);
    SSRunsSized(rs, refs);
    ScopeRunsSafe(rs, refs);
    RunsTailSafe(runs, rs.schema);
    if EmptyBytesOf(rs.resource.attrs) > 0 {
      assert RSItems(rs, refs) == [Sub(1, resource)] + (runs + tail);
      var rest' := FrontFault(resource, runs + tail, rest, b);
      if Parse(b).Some? {
        ResourceSpoiled(rs.resource, rest', MsgIn(Parse(b).value, 1));
      }
    } else {
      ResourceBack(rs.resource);
      SubIsComplete(1, resource, 2);
      var k, rest' := SubFault([Sub(1, resource)], 2, runs, tail, rest, b);
      var ss, run := ScopeRunAt(rs, refs, k);
      if Parse(b).Some? && DecodeScopes(Pick(Parse(b).value, 2)) == Some(ScopeRuns(rs, refs)) {
        DecodeScopesAt(Pick(Parse(b).value, 2), k);
        ScopeSpansSpoiled(ss, run, rest');
      }
    }
  }

  /** Resource run `k` of a group, as written and as it should decode. */
  lemma {:induction false} RunAt(td: Batch, refs: seq<SpanRef>, k: nat) returns (rs: ResourceSpans, run: seq<SpanRef>)
    requires NameBatch(td, refs) && k < |GroupItems(td, refs)|
    ensures NameScopes(rs, run)
    ensures GroupItems(td, refs)[k] == Sub(1, RSItems(rs, run))
    ensures |RunsOf(td, refs)| == |GroupItems(td, refs)|
    ensures RunsOf(td, refs)[k] == ResourceSpans(rs.resource, ScopeRuns(rs, run), rs.schema)
    decreases |refs|
  {
    hide RSItems, ScopeRuns;
    var j := ResourceRun(refs);
    NameFirstRun(td, refs);
    NameRest(td, refs, j);
    if k == 0 {
      rs, run := td[refs[0].rs], refs[..j];
      RunCount(td, refs);
    } else {
      rs, run := RunAt(td, refs[j..], k - 1);
    }
  }

  lemma {:induction false} RunCount(td: Batch, refs: seq<SpanRef>)
    requires NameBatch(td, refs)
    ensures |RunsOf(td, refs)| == |GroupItems(td, refs)|
    ensures AllSubs(GroupItems(td, refs), 1)
    decreases |refs|
  {
    hide RSItems, ScopeRuns;
    if refs != [] {
      NameFirstRun(td, refs);
      NameRest(td, refs, ResourceRun(refs));
      RunCount(td, refs[ResourceRun(refs)..]);
    }
  }

  lemma {:induction false} DecodeRunsAt(fs: seq<Field>, k: nat)
    requires DecodeRuns(fs).Some? && k < |fs|
    ensures |DecodeRuns(fs).value| == |fs| && fs[k].FBytes? && DecodeResourceSpans(fs[k].bytes) == Some(DecodeRuns(fs).value[k])
  {
    hide DecodeResourceSpans;
    if k > 0 {
      DecodeRunsAt(fs[1..], k - 1);
    } else if |fs| > 1 {
      DecodeRunsAt(fs[1..], 0);
    }
  }

  /** Nothing behind a whole fragment. */
  lemma WholeAgrees(xs: seq<Item>)
    ensures Agrees(EncItems(xs), EncItems([] + xs + []) + [], SizeItems([] + xs + [])) && SafeKeys([]) && Clean([])
  {
    assert [] + xs + [] == xs && EncItems(xs) + [] == EncItems(xs);
  }

  lemma FragmentSpoiled(td: Batch, refs: seq<SpanRef>)
    requires NameBatch(td, refs) && EmptyInGroup(td, refs) > 0
    ensures DecodeFragment(EncItems(GroupItems(td, refs))) != Some(RunsOf(td, refs))
  {
    hide Parse, Seen, Missing, EncItems, SizeItems, Agrees, Complete, Pick, FieldsOf, DecodeRuns, DecodeResourceSpans;
    hide GroupItems, RSItems, SafeKeys, RunsOf, EmptyInGroup, NameBatch, NameScopes;
    var xs := GroupItems(td, refs);
    var b := EncItems(xs);
    GroupSized(td, refs);
    RunCount(td, refs);
    WholeAgrees(xs);
    NoneGood(1);
    var k, rest' := SubFault([], 1, xs, [], [], b);
    var rs, run := RunAt(td, refs, k);
    if Parse(b).Some? && DecodeRuns(Pick(Parse(b).value, 1)) == Some(RunsOf(td, refs)) {
      DecodeRunsAt(Pick(Parse(b).value, 1), k);
      ResourceSpansSpoiled(rs, run, rest');
    }
  }

  /**
   For every batch and every list of references: the fragment decodes to the
   referenced spans, run by run, if and only if no bytes value inside is empty.
   */
  lemma FragmentRoundTripIff(td: Batch, refs: seq<SpanRef>)
    requires NameBatch(td, refs)
    ensures DecodeFragment(EncItems(GroupItems(td, refs))) == Some(RunsOf(td, refs)) <==> EmptyInGroup(td, refs) == 0
  {
    hide DecodeFragment, EncItems, GroupItems, RunsOf, EmptyInGroup, NameBatch;
    if EmptyInGroup(td, refs) == 0 {
      FragmentRoundTrip(td, refs);
    } else {
      FragmentSpoiled(td, refs);
    }
  }
}
