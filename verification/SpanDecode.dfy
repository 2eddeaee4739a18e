/**
 A reference decoder for spans, resources and scopes, and the round trip: a
 written message without an empty bytes value decodes to what it was written from.
 */
module SpanDecode {
  import opened Types
  import opened Bytes
  import opened Wire
  import opened Values
  import opened Spans

  // -------------------------------------------------------- fields by number

  /** The fields numbered `num`, in order. */
  function Pick(fs: seq<Field>, num: nat): (r: seq<Field>) {
    if fs == [] then [] else (if fs[0].num == num then [fs[0]] else []) + Pick(fs[1..], num)
  }

  function StrIn(fs: seq<Field>, num: nat): (s: seq<byte>) {
    var p := Pick(fs, num);
    if p == [] || !p[|p| - 1].FBytes? then [] else p[|p| - 1].bytes
  }

  /** A nested message; several occurrences of its field merge, as if their bytes were one. */
  function MsgIn(fs: seq<Field>, num: nat): (b: seq<byte>) {
    Joined(Pick(fs, num))
  }

  function Joined(fs: seq<Field>): (b: seq<byte>) {
    if fs == [] then [] else (if fs[0].FBytes? then fs[0].bytes else []) + Joined(fs[1..])
  }

  lemma JoinedOne(f: Field)
    requires f.FBytes?
    ensures Joined([f]) == f.bytes && Joined([]) == []
  {
    assert [f][1..] == [];
  }

  /** A scalar field; absent means zero. */
  function NumberIn(fs: seq<Field>, num: nat): (v: nat) {
    var p := Pick(fs, num);
    if p == [] || p[|p| - 1].FBytes? then 0 else p[|p| - 1].v
  }

  lemma {:induction false} PickAppend(a: seq<Field>, b: seq<Field>, num: nat)
    ensures Pick(a + b, num) == Pick(a, num) + Pick(b, num)
  {
    if a == [] {
      assert a + b == b;
    } else {
      assert (a + b)[1..] == a[1..] + b && (a + b)[0] == a[0];
      PickAppend(a[1..], b, num);
      var first := if a[0].num == num then [a[0]] else [];
      assert Pick(a + b, num) == first + Pick(a[1..] + b, num) && Pick(a, num) == first + Pick(a[1..], num);
      assert first + (Pick(a[1..], num) + Pick(b, num)) == first + Pick(a[1..], num) + Pick(b, num);
    }
  }

  ghost predicate Numbered(fs: seq<Field>, num: nat) {
    forall f :: f in fs ==> f.num == num
  }

  lemma {:induction false} PickOwn(fs: seq<Field>, own: nat, num: nat)
    requires Numbered(fs, own)
    ensures Pick(fs, num) == if num == own then fs else []
  {
    if fs != [] {
      assert fs[0] in fs;
      PickOwn(fs[1..], own, num);
      assert fs == [fs[0]] + fs[1..];
    }
  }

  function ByNumber(num: nat, base: nat, a: seq<Field>, b: seq<Field>, c: seq<Field>, d: seq<Field>): (r: seq<Field>) {
    if num == base then a else if num == base + 1 then b else if num == base + 2 then c else if num == base + 3 then d else []
  }

  /** Four parts of a message, numbered in turn: each is found by its number. */
  lemma PickFour(a: seq<Field>, b: seq<Field>, c: seq<Field>, d: seq<Field>, base: nat, num: nat)
    requires Numbered(a, base) && Numbered(b, base + 1) && Numbered(c, base + 2) && Numbered(d, base + 3)
    ensures Pick(a + b + c + d, num) == ByNumber(num, base, a, b, c, d)
  {
    hide Pick, Numbered;
    PickAppend(a, b, num);
    PickAppend(a + b, c, num);
    PickAppend(a + b + c, d, num);
    PickOwn(a, base, num);
    PickOwn(b, base + 1, num);
    PickOwn(c, base + 2, num);
    PickOwn(d, base + 3, num);
  }

  // ----------------------------------------------------- complete messages

  /** Nothing was left out, every value fits its width, and every field has the number `num`. */
  ghost predicate Part(items: seq<Item>, num: nat) {
    && Missing(items) == 0
    && (forall i :: i in items ==> Fits(i) && !i.Unwritten? && i.num == num)
  }

  ghost predicate Complete(items: seq<Item>) {
    && Missing(items) == 0
    && (forall i :: i in items ==> Fits(i) && !i.Unwritten?)
  }

  lemma PartFields(items: seq<Item>, num: nat)
    requires Part(items, num)
    ensures Complete(items) && Numbered(FieldsOf(items), num)
  {
    forall f | f in FieldsOf(items)
      ensures f.num == num
    {
      var k :| 0 <= k < |items| && FieldsOf(items)[k] == f;
      assert items[k] in items;
    }
  }

  lemma FieldsAppend(a: seq<Item>, b: seq<Item>)
    requires Complete(a) && Complete(b)
    ensures Complete(a + b) && FieldsOf(a + b) == FieldsOf(a) + FieldsOf(b)
  {
    EncAppend(a, b);
    assert forall i :: i in a + b <==> i in a || i in b;
  }

  /** Four numbered parts in a row parse, and each is found by its number. */
  lemma MessageFour(a: seq<Item>, b: seq<Item>, c: seq<Item>, d: seq<Item>, base: nat)
    requires Part(a, base) && Part(b, base + 1) && Part(c, base + 2) && Part(d, base + 3)
    ensures Complete(a) && Complete(b) && Complete(c) && Complete(d) && Complete(a + b + c + d)
    ensures FieldsOf(a + b + c + d) == FieldsOf(a) + FieldsOf(b) + FieldsOf(c) + FieldsOf(d)
    ensures forall num: nat ::
      Pick(FieldsOf(a + b + c + d), num) == ByNumber(num, base, FieldsOf(a), FieldsOf(b), FieldsOf(c), FieldsOf(d))
  {
    hide Part, Complete, Pick, Numbered;
    PartFields(a, base);
    PartFields(b, base + 1);
    PartFields(c, base + 2);
    PartFields(d, base + 3);
    FieldsAppend(a, b);
    FieldsAppend(a + b, c);
    FieldsAppend(a + b + c, d);
    forall num: nat
      ensures Pick(FieldsOf(a + b + c + d), num) == ByNumber(num, base, FieldsOf(a), FieldsOf(b), FieldsOf(c), FieldsOf(d))
    {
      PickFour(FieldsOf(a), FieldsOf(b), FieldsOf(c), FieldsOf(d), base, num);
    }
  }

  lemma CompleteWhole(items: seq<Item>)
    requires Complete(items)
    ensures forall i :: i in items ==> !i.Unwritten?
  {
  }

  lemma CompleteParses(items: seq<Item>)
    requires Complete(items)
    ensures Parse(EncItems(items)) == Some(FieldsOf(items))
  {
    ParseBack(items);
  }

  // ------------------------------------------------------------------ parts

  lemma NoPart(num: nat)
    ensures Part([], num)
  {
  }

  lemma StrPart(num: nat, s: seq<byte>)
    ensures Part(StrItems(num, s), num)
    ensures forall fs, n :: Pick(fs, n) == FieldsOf(StrItems(num, s)) ==> StrIn(fs, n) == s
  {
    StrSizes(num, s);
  }

  lemma ScalarPart(num: nat, v: nat)
    ensures Part(VarintItems(num, v), num)
    ensures forall fs, n :: Pick(fs, n) == FieldsOf(VarintItems(num, v)) ==> NumberIn(fs, n) == v
  {
    SizedScalar(num, v);
  }

  lemma Fixed64Part(num: nat, v: u64)
    ensures Part(Fixed64Items(num, v), num)
    ensures forall fs, n :: Pick(fs, n) == FieldsOf(Fixed64Items(num, v)) ==> NumberIn(fs, n) == v
  {
    SizedScalar(num, v);
  }

  lemma Fixed32Part(num: nat, v: u32)
    ensures Part(Fixed32Items(num, v), num)
    ensures forall fs, n :: Pick(fs, n) == FieldsOf(Fixed32Items(num, v)) ==> NumberIn(fs, n) == v
  {
    SizedScalar(num, v);
  }

  /** A message nested under `num`. */
  lemma SubPart(num: nat, items: seq<Item>)
    requires Complete(items)
    ensures Part([Sub(num, items)], num)
    ensures forall fs, n :: Pick(fs, n) == FieldsOf([Sub(num, items)]) ==> MsgIn(fs, n) == EncItems(items)
  {
    EncOne(Sub(num, items));
    JoinedOne(FBytes(num, EncItems(items)));
  }

  /** The bytes every length-delimited field among `fs` is shorter than. */
  function Bound(fs: seq<Field>): (n: nat)
    ensures forall f :: f in fs && f.FBytes? ==> |f.bytes| < n
  {
    if fs == [] then 0
    else
      var rest := Bound(fs[1..]);
      if fs[0].FBytes? && |fs[0].bytes| >= rest then |fs[0].bytes| + 1 else rest
  }

  function AttrsIn(fs: seq<Field>, num: nat): (r: Option<seq<Attr>>) {
    DecodeAttrs(Pick(fs, num), num, Bound(Pick(fs, num)))
  }

  lemma AttrsPart(num: nat, attrs: seq<Attr>)
    requires EmptyBytesOf(attrs) == 0
    ensures Part(AttrItems(num, attrs), num)
    ensures forall fs :: Pick(fs, num) == FieldsOf(AttrItems(num, attrs)) ==> AttrsIn(fs, num) == Some(attrs)
  {
    AttrSizes(num, attrs);
    AttrItemsAre(num, attrs);
    forall fs | Pick(fs, num) == FieldsOf(AttrItems(num, attrs))
      ensures AttrsIn(fs, num) == Some(attrs)
    {
      AttrsRoundTrip(attrs, num, Pick(fs, num), Bound(Pick(fs, num)));
    }
  }

  // --------------------------------------------------------------- messages

  function FromI32(u: nat): (r: Option<i32>) {
    if u < 0x8000_0000 then Some(u)
    else if TWO_64 - 0x8000_0000 <= u < TWO_64 then Some(u - TWO_64)
    else None
  }

  function IdFrom(b: seq<byte>, k: nat): (r: Option<seq<byte>>)
    ensures r.Some? ==> |r.value| == k
  {
    if b == [] then Some(Zeros(k)) else if |b| == k then Some(b) else None
  }

  lemma IdBack(id: seq<byte>)
    ensures IdFrom(Present(id), |id|) == Some(id)
  {
  }

  function DecodeStatus(b: seq<byte>): (r: Option<Status>) {
    match Parse(b)
    case None => None
    case Some(fs) =>
      var code := FromI32(NumberIn(fs, 3));
      if code.None? then None else Some(Status(StrIn(fs, 2), code.value))
  }

  lemma StatusBack(st: Status)
    ensures Complete(StatusItems(st)) && DecodeStatus(EncItems(StatusItems(st))) == Some(st)
  {
    hide Part, Complete, StrItems, VarintItems, Parse, EncItems, Pick, StrIn, NumberIn, FieldsOf;
    NoPart(1);
    NoPart(4);
    StrPart(2, st.message);
    ScalarPart(3, I64Wire(st.code));
    MessageFour([], StrItems(2, st.message), VarintItems(3, I64Wire(st.code)), [], 1);
    CompleteParses(StatusItems(st));
  }

  function DecodeEvent(b: seq<byte>): (r: Option<SpanEvent>) {
    match Parse(b)
    case None => None
    case Some(fs) =>
      var attrs := AttrsIn(fs, 3);
      if attrs.None? || NumberIn(fs, 1) >= TWO_64 || NumberIn(fs, 4) >= TWO_32 then None
      else Some(SpanEvent(NumberIn(fs, 1), StrIn(fs, 2), attrs.value, NumberIn(fs, 4)))
  }

  lemma EventBack(ev: SpanEvent)
    requires EmptyBytesOf(ev.attrs) == 0
    ensures Complete(EventItems(ev)) && DecodeEvent(EncItems(EventItems(ev))) == Some(ev)
  {
    hide Part, Complete, StrItems, VarintItems, Fixed64Items, AttrItems, Parse, EncItems, Pick, StrIn, NumberIn, AttrsIn, FieldsOf;
    Fixed64Part(1, ev.timestamp);
    StrPart(2, ev.name);
    AttrsPart(3, ev.attrs);
    ScalarPart(4, ev.dropped);
    MessageFour(Fixed64Items(1, ev.timestamp), StrItems(2, ev.name), AttrItems(3, ev.attrs), VarintItems(4, ev.dropped), 1);
    CompleteParses(EventItems(ev));
  }

  function DecodeResource(b: seq<byte>): (r: Option<Resource>) {
    match Parse(b)
    case None => None
    case Some(fs) =>
      var attrs := AttrsIn(fs, 1);
      if attrs.None? || NumberIn(fs, 2) >= TWO_32 then None else Some(Resource(attrs.value, NumberIn(fs, 2)))
  }

  lemma ResourceBack(res: Resource)
    requires EmptyBytesOf(res.attrs) == 0
    ensures Complete(ResourceItems(res)) && DecodeResource(EncItems(ResourceItems(res))) == Some(res)
  {
    hide Part, Complete, VarintItems, AttrItems, Parse, EncItems, Pick, NumberIn, AttrsIn, FieldsOf;
    AttrsPart(1, res.attrs);
    ScalarPart(2, res.dropped);
    NoPart(3);
    NoPart(4);
    MessageFour(AttrItems(1, res.attrs), VarintItems(2, res.dropped), [], [], 1);
    CompleteParses(ResourceItems(res));
  }

  function DecodeScope(b: seq<byte>): (r: Option<Scope>) {
    match Parse(b)
    case None => None
    case Some(fs) =>
      var attrs := AttrsIn(fs, 3);
      if attrs.None? || NumberIn(fs, 4) >= TWO_32 then None else Some(Scope(StrIn(fs, 1), StrIn(fs, 2), attrs.value, NumberIn(fs, 4)))
  }

  lemma ScopeBack(sc: Scope)
    requires EmptyBytesOf(sc.attrs) == 0
    ensures Complete(ScopeItems(sc)) && DecodeScope(EncItems(ScopeItems(sc))) == Some(sc)
  {
    hide Part, Complete, StrItems, VarintItems, AttrItems, Parse, EncItems, Pick, StrIn, NumberIn, AttrsIn, FieldsOf;
    StrPart(1, sc.name);
    StrPart(2, sc.version);
    AttrsPart(3, sc.attrs);
    ScalarPart(4, sc.dropped);
    MessageFour(StrItems(1, sc.name), StrItems(2, sc.version), AttrItems(3, sc.attrs), VarintItems(4, sc.dropped), 1);
    CompleteParses(ScopeItems(sc));
  }

  /** Two complete parts of a message: fields are found in either. */
  lemma MessageTwo(a: seq<Item>, b: seq<Item>)
    requires Complete(a) && Complete(b)
    ensures Complete(a + b) && FieldsOf(a + b) == FieldsOf(a) + FieldsOf(b)
    ensures forall num: nat :: Pick(FieldsOf(a + b), num) == Pick(FieldsOf(a), num) + Pick(FieldsOf(b), num)
  {
    hide Complete, Pick;
    FieldsAppend(a, b);
    forall num: nat
      ensures Pick(FieldsOf(a + b), num) == Pick(FieldsOf(a), num) + Pick(FieldsOf(b), num)
    {
      PickAppend(FieldsOf(a), FieldsOf(b), num);
    }
  }

  function DecodeLink(b: seq<byte>): (r: Option<Link>) {
    match Parse(b)
    case None => None
    case Some(fs) =>
      var traceId, spanId, attrs := IdFrom(StrIn(fs, 1), 16), IdFrom(StrIn(fs, 2), 8), AttrsIn(fs, 4);
      if traceId.None? || spanId.None? || attrs.None? || NumberIn(fs, 5) >= TWO_32 || NumberIn(fs, 6) >= TWO_32 then None
      else Some(Link(traceId.value, spanId.value, StrIn(fs, 3), attrs.value, NumberIn(fs, 5), NumberIn(fs, 6)))
  }

  lemma LinkBack(lk: Link)
    requires EmptyBytesOf(lk.attrs) == 0
    ensures Complete(LinkItems(lk)) && DecodeLink(EncItems(LinkItems(lk))) == Some(lk)
  {
    hide Part, Complete, StrItems, VarintItems, Fixed32Items, AttrItems, Parse, EncItems, Pick, StrIn, NumberIn, AttrsIn, FieldsOf, Present, IdFrom;
    IdBack(lk.traceId);
    IdBack(lk.spanId);
    StrPart(1, Present(lk.traceId));
    StrPart(2, Present(lk.spanId));
    StrPart(3, lk.state);
    AttrsPart(4, lk.attrs);
    ScalarPart(5, lk.dropped);
    Fixed32Part(6, lk.flags);
    NoPart(7);
    NoPart(8);
    var a := StrItems(1, Present(lk.traceId)) + StrItems(2, Present(lk.spanId)) + StrItems(3, lk.state) + AttrItems(4, lk.attrs);
    var b := VarintItems(5, lk.dropped) + Fixed32Items(6, lk.flags) + [] + [];
    MessageFour(StrItems(1, Present(lk.traceId)), StrItems(2, Present(lk.spanId)), StrItems(3, lk.state), AttrItems(4, lk.attrs), 1);
    MessageFour(VarintItems(5, lk.dropped), Fixed32Items(6, lk.flags), [], [], 5);
    MessageTwo(a, b);
    CompleteParses(LinkItems(lk));
  }

  // --------------------------------------------------------------- repeated

  function DecodeEvents(fs: seq<Field>): (r: Option<seq<SpanEvent>>) {
    if fs == [] then Some([])
    else if !fs[0].FBytes? then None
    else
      var ev, rest := DecodeEvent(fs[0].bytes), DecodeEvents(fs[1..]);
      if ev.None? || rest.None? then None else Some([ev.value] + rest.value)
  }

  lemma {:induction false} EventsBack(evs: seq<SpanEvent>)
    requires EmptyInEvents(evs) == 0
    ensures Part(EventsItems(evs), 11) && DecodeEvents(FieldsOf(EventsItems(evs))) == Some(evs)
  {
    hide Complete, EventItems, DecodeEvent;
    if evs != [] {
      EventBack(evs[0]);
      SubPart(11, EventItems(evs[0]));
      EventsBack(evs[1..]);
      PartJoin([Sub(11, EventItems(evs[0]))], EventsItems(evs[1..]), 11);
      assert evs == [evs[0]] + evs[1..];
    }
  }

  lemma PartJoin(a: seq<Item>, b: seq<Item>, num: nat)
    requires Part(a, num) && Part(b, num)
    ensures Part(a + b, num)
  {
    EncAppend(a, b);
  }

  function DecodeLinks(fs: seq<Field>): (r: Option<seq<Link>>) {
    if fs == [] then Some([])
    else if !fs[0].FBytes? then None
    else
      var lk, rest := DecodeLink(fs[0].bytes), DecodeLinks(fs[1..]);
      if lk.None? || rest.None? then None else Some([lk.value] + rest.value)
  }

  lemma {:induction false} LinksBack(lks: seq<Link>)
    requires EmptyInLinks(lks) == 0
    ensures Part(LinksItems(lks), 13) && DecodeLinks(FieldsOf(LinksItems(lks))) == Some(lks)
  {
    hide Complete, LinkItems, DecodeLink;
    if lks != [] {
      LinkBack(lks[0]);
      SubPart(13, LinkItems(lks[0]));
      LinksBack(lks[1..]);
      PartJoin([Sub(13, LinkItems(lks[0]))], LinksItems(lks[1..]), 13);
      assert lks == [lks[0]] + lks[1..];
    }
  }

  // ------------------------------------------------------------------ spans

  /** The scalar fields are within their widths. */
  predicate SpanInRange(fs: seq<Field>) {
    && NumberIn(fs, 7) < TWO_64 && NumberIn(fs, 8) < TWO_64 && NumberIn(fs, 10) < TWO_32 && NumberIn(fs, 12) < TWO_32
    && NumberIn(fs, 14) < TWO_32 && NumberIn(fs, 16) < TWO_32
  }

  function DecodeSpan(b: seq<byte>): (r: Option<Span>) {
    match Parse(b)
    case None => None
    case Some(fs) => SpanFrom(fs)
  }

  function SpanFrom(fs: seq<Field>): (r: Option<Span>) {
    var traceId, spanId, parentId := IdFrom(StrIn(fs, 1), 16), IdFrom(StrIn(fs, 2), 8), IdFrom(StrIn(fs, 4), 8);
    var kind, attrs, events, links := FromI32(NumberIn(fs, 6)), AttrsIn(fs, 9), DecodeEvents(Pick(fs, 11)), DecodeLinks(Pick(fs, 13));
    var status := DecodeStatus(MsgIn(fs, 15));
    if traceId.None? || spanId.None? || parentId.None? || kind.None? || attrs.None? || events.None? || links.None? || status.None?
       || !SpanInRange(fs)
    then None
    else Some(Span(traceId.value, spanId.value, StrIn(fs, 3), parentId.value, StrIn(fs, 5), kind.value, NumberIn(fs, 7), NumberIn(fs, 8),
                   attrs.value, NumberIn(fs, 10), events.value, NumberIn(fs, 12), links.value, NumberIn(fs, 14), status.value, NumberIn(fs, 16)))
  }

  /** An absent status message is the zero status. */
  lemma StatusFieldBack(st: Status)
    ensures Part(StatusField(st), 15)
    ensures forall fs, n :: Pick(fs, n) == FieldsOf(StatusField(st)) ==> DecodeStatus(MsgIn(fs, n)) == Some(st)
  {
    hide Complete, Parse, DecodeStatus, EncItems, Pick, FieldsOf;
    StatusBack(st);
    StatusSized(st);
    if SizeStatus(st) > 0 {
      SubPart(15, StatusItems(st));
    } else {
      NoPart(15);
      NothingFields();
      assert StatusItems(st) == [];
      assert EncItems([]) == [] by { NothingFields(); }
    }
  }

  lemma NothingFields()
    ensures FieldsOf([]) == [] && EncItems([]) == []
  {
  }

  /** The first eight fields of a span. */
  lemma SpanHead(sp: Span)
    ensures var a := StrItems(1, Present(sp.traceId)) + StrItems(2, Present(sp.spanId)) + StrItems(3, sp.state) + StrItems(4, Present(sp.parentId));
            var b := StrItems(5, sp.name) + VarintItems(6, I64Wire(sp.kind)) + Fixed64Items(7, sp.start) + Fixed64Items(8, sp.end);
            && Complete(a) && Complete(b)
            && (forall num: nat :: num > 8 ==> Pick(FieldsOf(a), num) == [] && Pick(FieldsOf(b), num) == [])
            && (forall num: nat :: 0 < num <= 4 ==> Pick(FieldsOf(b), num) == [])
            && (forall num: nat :: 4 < num <= 8 ==> Pick(FieldsOf(a), num) == [])
            && (forall fs :: Pick(fs, 1) == Pick(FieldsOf(a), 1) ==> IdFrom(StrIn(fs, 1), 16) == Some(sp.traceId))
            && (forall fs :: Pick(fs, 2) == Pick(FieldsOf(a), 2) ==> IdFrom(StrIn(fs, 2), 8) == Some(sp.spanId))
            && (forall fs :: Pick(fs, 3) == Pick(FieldsOf(a), 3) ==> StrIn(fs, 3) == sp.state)
            && (forall fs :: Pick(fs, 4) == Pick(FieldsOf(a), 4) ==> IdFrom(StrIn(fs, 4), 8) == Some(sp.parentId))
            && (forall fs :: Pick(fs, 5) == Pick(FieldsOf(b), 5) ==> StrIn(fs, 5) == sp.name)
            && (forall fs :: Pick(fs, 6) == Pick(FieldsOf(b), 6) ==> FromI32(NumberIn(fs, 6)) == Some(sp.kind))
            && (forall fs :: Pick(fs, 7) == Pick(FieldsOf(b), 7) ==> NumberIn(fs, 7) == sp.start)
            && (forall fs :: Pick(fs, 8) == Pick(FieldsOf(b), 8) ==> NumberIn(fs, 8) == sp.end)
  {
    hide Part, Complete, StrItems, VarintItems, Fixed64Items, Pick, StrIn, NumberIn, FieldsOf, Present, IdFrom;
    IdBack(sp.traceId);
    IdBack(sp.spanId);
    IdBack(sp.parentId);
    StrPart(1, Present(sp.traceId));
    StrPart(2, Present(sp.spanId));
    StrPart(3, sp.state);
    StrPart(4, Present(sp.parentId));
    StrPart(5, sp.name);
    ScalarPart(6, I64Wire(sp.kind));
    Fixed64Part(7, sp.start);
    Fixed64Part(8, sp.end);
    MessageFour(StrItems(1, Present(sp.traceId)), StrItems(2, Present(sp.spanId)), StrItems(3, sp.state), StrItems(4, Present(sp.parentId)), 1);
    MessageFour(StrItems(5, sp.name), VarintItems(6, I64Wire(sp.kind)), Fixed64Items(7, sp.start), Fixed64Items(8, sp.end), 5);
  }

  /** The last eight fields of a span. */
  lemma SpanTail(sp: Span)
    requires EmptyInSpan(sp) == 0
    ensures var c := AttrItems(9, sp.attrs) + VarintItems(10, sp.droppedAttrs) + EventsItems(sp.events) + VarintItems(12, sp.droppedEvents);
            var d := LinksItems(sp.links) + VarintItems(14, sp.droppedLinks) + StatusField(sp.status) + Fixed32Items(16, sp.flags);
            && Complete(c) && Complete(d)
            && (forall num: nat :: num <= 8 ==> Pick(FieldsOf(c), num) == [] && Pick(FieldsOf(d), num) == [])
            && (forall num: nat :: 8 < num <= 12 ==> Pick(FieldsOf(d), num) == [])
            && (forall num: nat :: 12 < num <= 16 ==> Pick(FieldsOf(c), num) == [])
            && (forall fs :: Pick(fs, 9) == Pick(FieldsOf(c), 9) ==> AttrsIn(fs, 9) == Some(sp.attrs))
            && (forall fs :: Pick(fs, 10) == Pick(FieldsOf(c), 10) ==> NumberIn(fs, 10) == sp.droppedAttrs)
            && DecodeEvents(Pick(FieldsOf(c), 11)) == Some(sp.events)
            && (forall fs :: Pick(fs, 12) == Pick(FieldsOf(c), 12) ==> NumberIn(fs, 12) == sp.droppedEvents)
            && DecodeLinks(Pick(FieldsOf(d), 13)) == Some(sp.links)
            && (forall fs :: Pick(fs, 14) == Pick(FieldsOf(d), 14) ==> NumberIn(fs, 14) == sp.droppedLinks)
            && (forall fs :: Pick(fs, 15) == Pick(FieldsOf(d), 15) ==> DecodeStatus(MsgIn(fs, 15)) == Some(sp.status))
            && (forall fs :: Pick(fs, 16) == Pick(FieldsOf(d), 16) ==> NumberIn(fs, 16) == sp.flags)
  {
    hide Part, Complete, VarintItems, Fixed32Items, AttrItems, EventsItems, LinksItems, StatusField;
    hide Pick, StrIn, MsgIn, NumberIn, AttrsIn, FieldsOf, DecodeStatus, DecodeEvents, DecodeLinks;
    AttrsPart(9, sp.attrs);
    ScalarPart(10, sp.droppedAttrs);
    EventsBack(sp.events);
    ScalarPart(12, sp.droppedEvents);
    LinksBack(sp.links);
    ScalarPart(14, sp.droppedLinks);
    StatusFieldBack(sp.status);
    Fixed32Part(16, sp.flags);
    MessageFour(AttrItems(9, sp.attrs), VarintItems(10, sp.droppedAttrs), EventsItems(sp.events), VarintItems(12, sp.droppedEvents), 9);
    MessageFour(LinksItems(sp.links), VarintItems(14, sp.droppedLinks), StatusField(sp.status), Fixed32Items(16, sp.flags), 13);
  }

  lemma SpanBack(sp: Span)
    requires EmptyInSpan(sp) == 0
    ensures Complete(SpanItems(sp)) && DecodeSpan(EncItems(SpanItems(sp))) == Some(sp)
  {
    hide Complete, StrItems, VarintItems, Fixed64Items, Fixed32Items, AttrItems, EventsItems, LinksItems, StatusField, Present, IdFrom, FromI32;
    hide Parse, EncItems, Pick, StrIn, MsgIn, NumberIn, AttrsIn, FieldsOf, DecodeStatus, DecodeEvents, DecodeLinks;
    var a := StrItems(1, Present(sp.traceId)) + StrItems(2, Present(sp.spanId)) + StrItems(3, sp.state) + StrItems(4, Present(sp.parentId));
    var b := StrItems(5, sp.name) + VarintItems(6, I64Wire(sp.kind)) + Fixed64Items(7, sp.start) + Fixed64Items(8, sp.end);
    var c := AttrItems(9, sp.attrs) + VarintItems(10, sp.droppedAttrs) + EventsItems(sp.events) + VarintItems(12, sp.droppedEvents);
    var d := LinksItems(sp.links) + VarintItems(14, sp.droppedLinks) + StatusField(sp.status) + Fixed32Items(16, sp.flags);
    SpanHead(sp);
    SpanTail(sp);
    CompleteWhole(a);
    CompleteWhole(b);
    CompleteWhole(c);
    CompleteWhole(d);
    MessageSixteen(a, b, c, d);
    CompleteParses(SpanItems(sp));
  }

  /** Fields numbered 1-4, 5-8, 9-12 and 13-16 in four complete parts. */
  lemma MessageSixteen(a: seq<Item>, b: seq<Item>, c: seq<Item>, d: seq<Item>)
    requires Complete(a) && Complete(b) && Complete(c) && Complete(d)
    requires forall num: nat :: 0 < num <= 4 ==> Pick(FieldsOf(b), num) == [] && Pick(FieldsOf(c), num) == [] && Pick(FieldsOf(d), num) == []
    requires forall num: nat :: 4 < num <= 8 ==> Pick(FieldsOf(a), num) == [] && Pick(FieldsOf(c), num) == [] && Pick(FieldsOf(d), num) == []
    requires forall num: nat :: 8 < num <= 12 ==> Pick(FieldsOf(a), num) == [] && Pick(FieldsOf(b), num) == [] && Pick(FieldsOf(d), num) == []
    requires forall num: nat :: 12 < num <= 16 ==> Pick(FieldsOf(a), num) == [] && Pick(FieldsOf(b), num) == [] && Pick(FieldsOf(c), num) == []
    ensures Complete(a + b + c + d)
    ensures forall num: nat :: 0 < num <= 4 ==> Pick(FieldsOf(a + b + c + d), num) == Pick(FieldsOf(a), num)
    ensures forall num: nat :: 4 < num <= 8 ==> Pick(FieldsOf(a + b + c + d), num) == Pick(FieldsOf(b), num)
    ensures forall num: nat :: 8 < num <= 12 ==> Pick(FieldsOf(a + b + c + d), num) == Pick(FieldsOf(c), num)
    ensures forall num: nat :: 12 < num <= 16 ==> Pick(FieldsOf(a + b + c + d), num) == Pick(FieldsOf(d), num)
  {
    hide Complete, Pick, FieldsOf;
    CompleteWhole(a);
    CompleteWhole(b);
    CompleteWhole(c);
    CompleteWhole(d);
    MessageTwo(a, b);
    MessageTwo(a + b, c);
    MessageTwo(a + b + c, d);
  }
}
