/**
 Spans and the batches they come from: the size pass, the message trees the
 write pass emits, and the splitting of a group's references into runs.
 */
module Spans {
  import opened Types
  import opened Bytes
  import opened Wire
  import opened Values

  type u32 = x: int | 0 <= x < 0x1_0000_0000
  type i32 = x: int | -0x8000_0000 <= x < 0x8000_0000

  function Zeros(k: nat): (b: seq<byte>)
    ensures |b| == k
  {
    seq(k, _ => 0)
  }

  type Id16 = b: seq<byte> | |b| == 16 witness Zeros(16)
  type Id8 = b: seq<byte> | |b| == 8 witness Zeros(8)

  /** What is written of an id: nothing if it is all zero. */
  function Present(id: seq<byte>): (b: seq<byte>) {
    if id == Zeros(|id|) then [] else id
  }

  datatype Status = Status(message: seq<byte>, code: i32)

  datatype SpanEvent = SpanEvent(timestamp: u64, name: seq<byte>, attrs: seq<Attr>, dropped: u32)

  datatype Link = Link(traceId: Id16, spanId: Id8, state: seq<byte>, attrs: seq<Attr>, dropped: u32, flags: u32)

  datatype Span = Span(
    traceId: Id16,
    spanId: Id8,
    state: seq<byte>,
    parentId: Id8,
    name: seq<byte>,
    kind: i32,
    start: u64,
    end: u64,
    attrs: seq<Attr>,
    droppedAttrs: u32,
    events: seq<SpanEvent>,
    droppedEvents: u32,
    links: seq<Link>,
    droppedLinks: u32,
    status: Status,
    flags: u32)

  datatype Resource = Resource(attrs: seq<Attr>, dropped: u32)

  datatype Scope = Scope(name: seq<byte>, version: seq<byte>, attrs: seq<Attr>, dropped: u32)

  datatype ScopeSpans = ScopeSpans(scope: Scope, spans: seq<Span>, schema: seq<byte>)

  datatype ResourceSpans = ResourceSpans(resource: Resource, scopes: seq<ScopeSpans>, schema: seq<byte>)

  /** One span of a batch, by position. */
  datatype SpanRef = SpanRef(rs: nat, ss: nat, sp: nat)

  // --------------------------------------------------------------- size pass

  function SizeVarintF(num: nat, v: nat): (n: nat) {
    if v == 0 then 0 else SizeKey(num) + SizeUvarint(v)
  }

  function SizeFixed64F(num: nat, v: nat): (n: nat) {
    if v == 0 then 0 else SizeKey(num) + 8
  }

  function SizeFixed32F(num: nat, v: nat): (n: nat) {
    if v == 0 then 0 else SizeKey(num) + 4
  }

  function SizeStatus(st: Status): (n: nat) {
    SizeStr(2, st.message) + SizeVarintF(3, I64Wire(st.code))
  }

  function SizeEvent(ev: SpanEvent): (n: nat) {
    SizeFixed64F(1, ev.timestamp) + SizeStr(2, ev.name) + SizeAttrs(3, ev.attrs) + SizeVarintF(4, ev.dropped)
  }

  function SizeEvents(evs: seq<SpanEvent>): (n: nat) {
    if evs == [] then 0 else SizeLen(11, SizeEvent(evs[0])) + SizeEvents(evs[1..])
  }

  function SizeLink(lk: Link): (n: nat) {
    SizeStr(1, Present(lk.traceId)) + SizeStr(2, Present(lk.spanId)) + SizeStr(3, lk.state)
    + SizeAttrs(4, lk.attrs) + SizeVarintF(5, lk.dropped) + SizeFixed32F(6, lk.flags)
  }

  function SizeLinks(lks: seq<Link>): (n: nat) {
    if lks == [] then 0 else SizeLen(13, SizeLink(lks[0])) + SizeLinks(lks[1..])
  }

  function SizeSpan(sp: Span): (n: nat) {
    SizeStr(1, Present(sp.traceId)) + SizeStr(2, Present(sp.spanId)) + SizeStr(3, sp.state) + SizeStr(4, Present(sp.parentId))
    + SizeStr(5, sp.name) + SizeVarintF(6, I64Wire(sp.kind)) + SizeFixed64F(7, sp.start) + SizeFixed64F(8, sp.end)
    + SizeAttrs(9, sp.attrs) + SizeVarintF(10, sp.droppedAttrs) + SizeEvents(sp.events) + SizeVarintF(12, sp.droppedEvents)
    + SizeLinks(sp.links) + SizeVarintF(14, sp.droppedLinks)
    + (if SizeStatus(sp.status) > 0 then SizeLen(15, SizeStatus(sp.status)) else 0) + SizeFixed32F(16, sp.flags)
  }

  function SizeResource(res: Resource): (n: nat) {
    SizeAttrs(1, res.attrs) + SizeVarintF(2, res.dropped)
  }

  function SizeScope(sc: Scope): (n: nat) {
    SizeStr(1, sc.name) + SizeStr(2, sc.version) + SizeAttrs(3, sc.attrs) + SizeVarintF(4, sc.dropped)
  }

  // -------------------------------------------------------------- write pass

  function VarintItems(num: nat, v: nat): (items: seq<Item>) {
    if v == 0 then [] else [Varint(num, v)]
  }

  function Fixed64Items(num: nat, v: nat): (items: seq<Item>) {
    if v == 0 then [] else [Fixed64(num, v)]
  }

  function Fixed32Items(num: nat, v: nat): (items: seq<Item>) {
    if v == 0 then [] else [Fixed32(num, v)]
  }

  function StatusItems(st: Status): (items: seq<Item>) {
    [] + StrItems(2, st.message) + VarintItems(3, I64Wire(st.code)) + []
  }

  function EventItems(ev: SpanEvent): (items: seq<Item>) {
    Fixed64Items(1, ev.timestamp) + StrItems(2, ev.name) + AttrItems(3, ev.attrs) + VarintItems(4, ev.dropped)
  }

  function EventsItems(evs: seq<SpanEvent>): (items: seq<Item>) {
    if evs == [] then [] else [Sub(11, EventItems(evs[0]))] + EventsItems(evs[1..])
  }

  function LinkItems(lk: Link): (items: seq<Item>) {
    (StrItems(1, Present(lk.traceId)) + StrItems(2, Present(lk.spanId)) + StrItems(3, lk.state) + AttrItems(4, lk.attrs))
    + (VarintItems(5, lk.dropped) + Fixed32Items(6, lk.flags) + [] + [])
  }

  function LinksItems(lks: seq<Link>): (items: seq<Item>) {
    if lks == [] then [] else [Sub(13, LinkItems(lks[0]))] + LinksItems(lks[1..])
  }

  function StatusField(st: Status): (items: seq<Item>) {
    if SizeStatus(st) > 0 then [Sub(15, StatusItems(st))] else []
  }

  function SpanItems(sp: Span): (items: seq<Item>) {
    (StrItems(1, Present(sp.traceId)) + StrItems(2, Present(sp.spanId)) + StrItems(3, sp.state) + StrItems(4, Present(sp.parentId)))
    + (StrItems(5, sp.name) + VarintItems(6, I64Wire(sp.kind)) + Fixed64Items(7, sp.start) + Fixed64Items(8, sp.end))
    + (AttrItems(9, sp.attrs) + VarintItems(10, sp.droppedAttrs) + EventsItems(sp.events) + VarintItems(12, sp.droppedEvents))
    + (LinksItems(sp.links) + VarintItems(14, sp.droppedLinks) + StatusField(sp.status) + Fixed32Items(16, sp.flags))
  }

  function ResourceItems(res: Resource): (items: seq<Item>) {
    AttrItems(1, res.attrs) + VarintItems(2, res.dropped) + [] + []
  }

  function ScopeItems(sc: Scope): (items: seq<Item>) {
    StrItems(1, sc.name) + StrItems(2, sc.version) + AttrItems(3, sc.attrs) + VarintItems(4, sc.dropped)
  }

  // ------------------------------------------------------------ empty bytes

  function EmptyInEvents(evs: seq<SpanEvent>): (n: nat) {
    if evs == [] then 0 else EmptyBytesOf(evs[0].attrs) + EmptyInEvents(evs[1..])
  }

  function EmptyInLinks(lks: seq<Link>): (n: nat) {
    if lks == [] then 0 else EmptyBytesOf(lks[0].attrs) + EmptyInLinks(lks[1..])
  }

  /** Empty bytes values anywhere inside a span. */
  function EmptyInSpan(sp: Span): (n: nat) {
    EmptyBytesOf(sp.attrs) + EmptyInEvents(sp.events) + EmptyInLinks(sp.links)
  }

  // ----------------------------------------------- the size pass is right

  /** `items` has size `n`, of which the write pass leaves out `missing` bytes. */
  ghost predicate Sized(items: seq<Item>, n: nat, missing: nat) {
    SizeItems(items) == n && Missing(items) == missing
  }

  lemma SizedNothing()
    ensures Sized([], 0, 0)
  {
  }

  lemma SizedFour(a: seq<Item>, b: seq<Item>, c: seq<Item>, d: seq<Item>)
    ensures Sized(a + b + c + d, SizeItems(a) + SizeItems(b) + SizeItems(c) + SizeItems(d), Missing(a) + Missing(b) + Missing(c) + Missing(d))
  {
    hide Sized, SizeItems, Missing, EncItems;
    SizedItself(a);
    SizedItself(b);
    SizedItself(c);
    SizedItself(d);
    SizedAppend(a, b, SizeItems(a), SizeItems(b), Missing(a), Missing(b));
    SizedAppend(a + b, c, SizeItems(a) + SizeItems(b), SizeItems(c), Missing(a) + Missing(b), Missing(c));
    SizedAppend(a + b + c, d, SizeItems(a) + SizeItems(b) + SizeItems(c), SizeItems(d), Missing(a) + Missing(b) + Missing(c), Missing(d));
  }

  lemma SizedItself(items: seq<Item>)
    ensures Sized(items, SizeItems(items), Missing(items))
  {
  }

  lemma SizedScalar(num: nat, v: nat)
    ensures Sized(VarintItems(num, v), SizeVarintF(num, v), 0)
    ensures Sized(Fixed64Items(num, v), SizeFixed64F(num, v), 0)
    ensures Sized(Fixed32Items(num, v), SizeFixed32F(num, v), 0)
  {
    hide SizeKey, SizeUvarint;
    EncOne(Varint(num, v));
    EncOne(Fixed64(num, v));
    EncOne(Fixed32(num, v));
  }

  lemma SizedStr(num: nat, s: seq<byte>)
    ensures Sized(StrItems(num, s), SizeStr(num, s), 0)
  {
    StrSizes(num, s);
  }

  lemma SizedAttrs(num: nat, attrs: seq<Attr>)
    ensures Sized(AttrItems(num, attrs), SizeAttrs(num, attrs), 2 * EmptyBytesOf(attrs))
  {
    AttrSizes(num, attrs);
  }

  lemma SizedSub(num: nat, items: seq<Item>, n: nat, missing: nat)
    requires Sized(items, n, missing)
    ensures Sized([Sub(num, items)], SizeLen(num, n), missing)
  {
    hide SizeLen;
    EncOne(Sub(num, items));
  }

  lemma SizedAppend(a: seq<Item>, b: seq<Item>, n: nat, m: nat, x: nat, y: nat)
    requires Sized(a, n, x) && Sized(b, m, y)
    ensures Sized(a + b, n + m, x + y)
  {
    EncAppend(a, b);
  }

  lemma StatusSized(st: Status)
    ensures Sized(StatusItems(st), SizeStatus(st), 0)
  {
    hide SizeItems, Missing, StrItems, VarintItems, SizeStr, SizeVarintF;
    SizedNothing();
    SizedStr(2, st.message);
    SizedScalar(3, I64Wire(st.code));
    SizedFour([], StrItems(2, st.message), VarintItems(3, I64Wire(st.code)), []);
  }

  lemma EventSized(ev: SpanEvent)
    ensures Sized(EventItems(ev), SizeEvent(ev), 2 * EmptyBytesOf(ev.attrs))
  {
    hide SizeItems, Missing, StrItems, VarintItems, Fixed64Items, AttrItems, SizeStr, SizeVarintF, SizeFixed64F, SizeAttrs;
    SizedScalar(1, ev.timestamp);
    SizedStr(2, ev.name);
    SizedAttrs(3, ev.attrs);
    SizedScalar(4, ev.dropped);
    SizedFour(Fixed64Items(1, ev.timestamp), StrItems(2, ev.name), AttrItems(3, ev.attrs), VarintItems(4, ev.dropped));
  }

  lemma {:induction false} EventsSized(evs: seq<SpanEvent>)
    ensures Sized(EventsItems(evs), SizeEvents(evs), 2 * EmptyInEvents(evs))
  {
    hide Sized, SizeLen, EventItems, SizeEvent;
    if evs == [] {
      SizedNothing();
    } else {
      EventSized(evs[0]);
      SizedSub(11, EventItems(evs[0]), SizeEvent(evs[0]), 2 * EmptyBytesOf(evs[0].attrs));
      EventsSized(evs[1..]);
      SizedAppend([Sub(11, EventItems(evs[0]))], EventsItems(evs[1..]), SizeLen(11, SizeEvent(evs[0])), SizeEvents(evs[1..]),
                  2 * EmptyBytesOf(evs[0].attrs), 2 * EmptyInEvents(evs[1..]));
    }
  }

  lemma LinkSized(lk: Link)
    ensures Sized(LinkItems(lk), SizeLink(lk), 2 * EmptyBytesOf(lk.attrs))
  {
    hide SizeItems, Missing, EncItems, Present, StrItems, VarintItems, Fixed32Items, AttrItems, SizeStr, SizeVarintF, SizeFixed32F, SizeAttrs;
    SizedNothing();
    SizedStr(1, Present(lk.traceId));
    SizedStr(2, Present(lk.spanId));
    SizedStr(3, lk.state);
    SizedAttrs(4, lk.attrs);
    SizedScalar(5, lk.dropped);
    SizedScalar(6, lk.flags);
    var a := StrItems(1, Present(lk.traceId)) + StrItems(2, Present(lk.spanId)) + StrItems(3, lk.state) + AttrItems(4, lk.attrs);
    var b := VarintItems(5, lk.dropped) + Fixed32Items(6, lk.flags) + [] + [];
    SizedFour(StrItems(1, Present(lk.traceId)), StrItems(2, Present(lk.spanId)), StrItems(3, lk.state), AttrItems(4, lk.attrs));
    SizedFour(VarintItems(5, lk.dropped), Fixed32Items(6, lk.flags), [], []);
    EncAppend(a, b);
  }

  lemma {:induction false} LinksSized(lks: seq<Link>)
    ensures Sized(LinksItems(lks), SizeLinks(lks), 2 * EmptyInLinks(lks))
  {
    hide Sized, SizeLen, LinkItems, SizeLink;
    if lks == [] {
      SizedNothing();
    } else {
      LinkSized(lks[0]);
      SizedSub(13, LinkItems(lks[0]), SizeLink(lks[0]), 2 * EmptyBytesOf(lks[0].attrs));
      LinksSized(lks[1..]);
      SizedAppend([Sub(13, LinkItems(lks[0]))], LinksItems(lks[1..]), SizeLen(13, SizeLink(lks[0])), SizeLinks(lks[1..]),
                  2 * EmptyBytesOf(lks[0].attrs), 2 * EmptyInLinks(lks[1..]));
    }
  }

  lemma StatusFieldSized(st: Status)
    ensures Sized(StatusField(st), if SizeStatus(st) > 0 then SizeLen(15, SizeStatus(st)) else 0, 0)
  {
    hide Sized, SizeLen, StatusItems, SizeStatus;
    SizedNothing();
    StatusSized(st);
    SizedSub(15, StatusItems(st), SizeStatus(st), 0);
  }

  lemma SpanScalars(sp: Span)
    ensures Sized(StrItems(1, Present(sp.traceId)), SizeStr(1, Present(sp.traceId)), 0) && Sized(StrItems(2, Present(sp.spanId)), SizeStr(2, Present(sp.spanId)), 0)
    ensures Sized(StrItems(3, sp.state), SizeStr(3, sp.state), 0) && Sized(StrItems(4, Present(sp.parentId)), SizeStr(4, Present(sp.parentId)), 0)
    ensures Sized(StrItems(5, sp.name), SizeStr(5, sp.name), 0) && Sized(VarintItems(6, I64Wire(sp.kind)), SizeVarintF(6, I64Wire(sp.kind)), 0)
    ensures Sized(Fixed64Items(7, sp.start), SizeFixed64F(7, sp.start), 0) && Sized(Fixed64Items(8, sp.end), SizeFixed64F(8, sp.end), 0)
    ensures Sized(VarintItems(10, sp.droppedAttrs), SizeVarintF(10, sp.droppedAttrs), 0)
    ensures Sized(VarintItems(12, sp.droppedEvents), SizeVarintF(12, sp.droppedEvents), 0)
    ensures Sized(VarintItems(14, sp.droppedLinks), SizeVarintF(14, sp.droppedLinks), 0)
    ensures Sized(Fixed32Items(16, sp.flags), SizeFixed32F(16, sp.flags), 0)
  {
    hide Sized;
    SizedStr(1, Present(sp.traceId));
    SizedStr(2, Present(sp.spanId));
    SizedStr(3, sp.state);
    SizedStr(4, Present(sp.parentId));
    SizedStr(5, sp.name);
    SizedScalar(6, I64Wire(sp.kind));
    SizedScalar(7, sp.start);
    SizedScalar(8, sp.end);
    SizedScalar(10, sp.droppedAttrs);
    SizedScalar(12, sp.droppedEvents);
    SizedScalar(14, sp.droppedLinks);
    SizedScalar(16, sp.flags);
  }

  lemma SpanSized(sp: Span)
    ensures Sized(SpanItems(sp), SizeSpan(sp), 2 * EmptyInSpan(sp))
  {
    hide SizeItems, Missing, StrItems, VarintItems, Fixed32Items, Fixed64Items, AttrItems, EventsItems, LinksItems, StatusField;
    hide SizeStr, SizeVarintF, SizeFixed32F, SizeFixed64F, SizeAttrs, SizeEvents, SizeLinks, SizeLen, SizeStatus;
    SpanScalars(sp);
    SizedAttrs(9, sp.attrs);
    EventsSized(sp.events);
    LinksSized(sp.links);
    StatusFieldSized(sp.status);
    var a := StrItems(1, Present(sp.traceId)) + StrItems(2, Present(sp.spanId)) + StrItems(3, sp.state) + StrItems(4, Present(sp.parentId));
    var b := StrItems(5, sp.name) + VarintItems(6, I64Wire(sp.kind)) + Fixed64Items(7, sp.start) + Fixed64Items(8, sp.end);
    var c := AttrItems(9, sp.attrs) + VarintItems(10, sp.droppedAttrs) + EventsItems(sp.events) + VarintItems(12, sp.droppedEvents);
    var d := LinksItems(sp.links) + VarintItems(14, sp.droppedLinks) + StatusField(sp.status) + Fixed32Items(16, sp.flags);
    SizedFour(StrItems(1, Present(sp.traceId)), StrItems(2, Present(sp.spanId)), StrItems(3, sp.state), StrItems(4, Present(sp.parentId)));
    SizedFour(StrItems(5, sp.name), VarintItems(6, I64Wire(sp.kind)), Fixed64Items(7, sp.start), Fixed64Items(8, sp.end));
    SizedFour(AttrItems(9, sp.attrs), VarintItems(10, sp.droppedAttrs), EventsItems(sp.events), VarintItems(12, sp.droppedEvents));
    SizedFour(LinksItems(sp.links), VarintItems(14, sp.droppedLinks), StatusField(sp.status), Fixed32Items(16, sp.flags));
    SizedFour(a, b, c, d);
  }

  lemma ResourceSized(res: Resource)
    ensures Sized(ResourceItems(res), SizeResource(res), 2 * EmptyBytesOf(res.attrs))
  {
    hide SizeItems, Missing, VarintItems, AttrItems, SizeVarintF, SizeAttrs;
    SizedNothing();
    SizedAttrs(1, res.attrs);
    SizedScalar(2, res.dropped);
    SizedFour(AttrItems(1, res.attrs), VarintItems(2, res.dropped), [], []);
  }

  lemma ScopeSized(sc: Scope)
    ensures Sized(ScopeItems(sc), SizeScope(sc), 2 * EmptyBytesOf(sc.attrs))
  {
    hide SizeItems, Missing, StrItems, VarintItems, AttrItems, SizeStr, SizeVarintF, SizeAttrs;
    SizedStr(1, sc.name);
    SizedStr(2, sc.version);
    SizedAttrs(3, sc.attrs);
    SizedScalar(4, sc.dropped);
    SizedFour(StrItems(1, sc.name), StrItems(2, sc.version), AttrItems(3, sc.attrs), VarintItems(4, sc.dropped));
  }
}
