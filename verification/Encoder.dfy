/**
 The encoder as it runs: appends to one growing buffer, writing each nested
 message's length before its contents from the size pass. Each method is proved
 to append exactly the message tree of what it was given.
 */
module Encoder {
  import opened Types
  import opened Bytes
  import opened Wire
  import opened Values
  import opened Spans
  import opened SpanGroups

  lemma EncFour(pre: seq<byte>, a: seq<Item>, b: seq<Item>, c: seq<Item>, d: seq<Item>)
    ensures pre + EncItems(a) + EncItems(b) + EncItems(c) + EncItems(d) == pre + EncItems(a + b + c + d)
  {
    hide EncItems, SizeItems, Missing;
    EncAppend(a, b);
    EncAppend(a + b, c);
    EncAppend(a + b + c, d);
  }

  lemma EncTwo(pre: seq<byte>, a: seq<Item>, b: seq<Item>)
    ensures pre + EncItems(a) + EncItems(b) == pre + EncItems(a + b)
  {
    EncAppend(a, b);
  }

  lemma EncNothing()
    ensures EncItems([]) == []
  {
  }

  /** A nested message is its header followed by its contents. */
  lemma EncSub(num: nat, items: seq<Item>, size: nat)
    requires SizeItems(items) == size
    ensures EncItems([Sub(num, items)]) == Key(num, LENGTH) + Uvarint(size) + EncItems(items)
  {
    EncOne(Sub(num, items));
  }

  /** A nested message, then the rest of a list. */
  lemma EncCons(num: nat, items: seq<Item>, size: nat, rest: seq<Item>)
    requires SizeItems(items) == size
    ensures EncItems([Sub(num, items)] + rest) == Key(num, LENGTH) + Uvarint(size) + EncItems(items) + EncItems(rest)
  {
    EncSub(num, items, size);
    EncAppend([Sub(num, items)], rest);
  }

  /** The size pass counts a varint's bytes without writing it. */
  method CountUvarint(v: nat) returns (n: nat)
    ensures n == |Uvarint(v)| == SizeUvarint(v)
  {
    UvarintSize(v);
    n := 1;
    var rest := v;
    while rest >= 0x80
      invariant n + SizeUvarint(rest) == SizeUvarint(v) + 1
    {
      rest := rest / 128;
      n := n + 1;
    }
  }

  class Enc {
    var b: seq<byte>

    constructor ()
      ensures b == []
    {
      b := [];
    }

    method PutUvarint(v: nat)
      modifies this
      ensures b == old(b) + Uvarint(v)
    {
      var rest := v;
      while rest >= 0x80
        invariant b + Uvarint(rest) == old(b) + Uvarint(v)
      {
        b := b + [(rest % 128 + 128) as byte];
        rest := rest / 128;
      }
      b := b + [rest as byte];
    }

    method PutKey(num: nat, wire: nat)
      modifies this
      ensures b == old(b) + Key(num, wire)
    {
      PutUvarint(num * 8 + wire);
    }

    method Msg(num: nat, size: nat)
      modifies this
      ensures b == old(b) + (Key(num, LENGTH) + Uvarint(size))
    {
      hide Uvarint, Key;
      PutKey(num, LENGTH);
      PutUvarint(size);
    }

    method PutBlob(num: nat, s: seq<byte>)
      modifies this
      ensures b == old(b) + EncItems([Blob(num, s)])
    {
      hide Uvarint, Key;
      EncOne(Blob(num, s));
      PutKey(num, LENGTH);
      PutUvarint(|s|);
      b := b + s;
    }

    method PutStr(num: nat, s: seq<byte>)
      modifies this
      ensures b == old(b) + EncItems(StrItems(num, s))
    {
      hide Uvarint, Key;
      EncNothing();
      if s != [] {
        PutBlob(num, s);
      }
    }

    method PutVarintF(num: nat, v: nat)
      modifies this
      ensures b == old(b) + EncItems(VarintItems(num, v))
    {
      hide Uvarint, Key;
      EncNothing();
      EncOne(Varint(num, v));
      if v != 0 {
        PutKey(num, VARINT);
        PutUvarint(v);
      }
    }

    method PutFixed64F(num: nat, v: nat)
      modifies this
      ensures b == old(b) + EncItems(Fixed64Items(num, v))
    {
      hide Uvarint, Key, LittleEndian;
      EncNothing();
      EncOne(Fixed64(num, v));
      if v != 0 {
        PutKey(num, FIXED64);
        b := b + LittleEndian(v, 8);
      }
    }

    method PutFixed32F(num: nat, v: nat)
      modifies this
      ensures b == old(b) + EncItems(Fixed32Items(num, v))
    {
      hide Uvarint, Key, LittleEndian;
      EncNothing();
      EncOne(Fixed32(num, v));
      if v != 0 {
        PutKey(num, FIXED32);
        b := b + LittleEndian(v, 4);
      }
    }

    /** Values: the set variant is written even at its zero value, except for empty bytes. */
    method PutValue(v: Value)
      modifies this
      ensures b == old(b) + EncItems(ValueItems(v))
      decreases v, 1
    {
      hide Uvarint, Key, LittleEndian, EncItems, SizeValue;
      EncNothing();
      match v {
        case VStr(s) =>
          PutBlob(1, s);
        case VBool(x) =>
          EncOne(Varint(2, if x then 1 else 0));
          OneByteVarint(if x then 1 else 0);
          PutKey(2, VARINT);
          b := b + [if x then 1 else 0];
        case VInt(i) =>
          EncOne(Varint(3, I64Wire(i)));
          PutKey(3, VARINT);
          PutUvarint(I64Wire(i));
        case VDouble(bits) =>
          EncOne(Fixed64(4, bits));
          PutKey(4, FIXED64);
          b := b + LittleEndian(bits, 8);
        case VSlice(items) =>
          PutSlice(items);
        case VMap(entries) =>
          AttrSizes(1, entries);
          EncSub(6, AttrItems(1, entries), SizeAttrs(1, entries));
          Msg(6, SizeAttrs(1, entries));
          PutAttrs(1, entries);
        case VBytes(bytes) =>
          EncOne(Unwritten(7));
          UnwrittenIsNothing();
          if bytes != [] {
            PutBlob(7, bytes);
          }
        case VEmpty =>
      }
    }

    method PutSlice(items: seq<Value>)
      modifies this
      ensures b == old(b) + EncItems([Sub(5, SliceItems(items))])
      decreases items, 0
    {
      hide Uvarint, Key, EncItems, ValueItems, SizeItems, Missing, SizeValue, EmptyBytesIn;
      var n, i := 0, 0;
      while i < |items|
        invariant 0 <= i <= |items|
        invariant n + SizeSlice(items[i..]) == SizeSlice(items)
      {
        n := n + SizeLen(1, SizeValue(items[i]));
        i := i + 1;
      }
      assert items[i..] == [];
      SliceSizes(items);
      EncSub(5, SliceItems(items), n);
      Msg(5, n);
      ghost var header := b;
      EncNothing();
      i := 0;
      assert items[0..] == items;
      while i < |items|
        invariant 0 <= i <= |items|
        invariant b + EncItems(SliceItems(items[i..])) == header + EncItems(SliceItems(items))
      {
        ValueSizes(items[i]);
        EncCons(1, ValueItems(items[i]), SizeValue(items[i]), SliceItems(items[i + 1..]));
        assert items[i..][1..] == items[i + 1..];
        Msg(1, SizeValue(items[i]));
        PutValue(items[i]);
        i := i + 1;
      }
      assert b == header + EncItems(SliceItems(items));
    }

    method PutKeyValue(a: Attr)
      modifies this
      ensures b == old(b) + EncItems(KeyValueItems(a))
      decreases a, 0
    {
      hide Uvarint, Key, EncItems, ValueItems, SizeItems, Missing, SizeValue, StrItems;
      ghost var pre := b;
      PutStr(1, a.key);
      ValueSizes(a.value);
      EncSub(2, ValueItems(a.value), SizeValue(a.value));
      EncTwo(pre, StrItems(1, a.key), [Sub(2, ValueItems(a.value))]);
      Msg(2, SizeValue(a.value));
      PutValue(a.value);
    }

    method PutAttrs(num: nat, attrs: seq<Attr>)
      modifies this
      ensures b == old(b) + EncItems(AttrItems(num, attrs))
      decreases attrs, 0
    {
      hide Uvarint, Key, EncItems, KeyValueItems, SizeItems, Missing, SizeKeyValue;
      EncNothing();
      var i := 0;
      assert attrs[0..] == attrs;
      while i < |attrs|
        invariant 0 <= i <= |attrs|
        invariant b + EncItems(AttrItems(num, attrs[i..])) == old(b) + EncItems(AttrItems(num, attrs))
      {
        KeyValueSizes(attrs[i]);
        EncCons(num, KeyValueItems(attrs[i]), SizeKeyValue(attrs[i]), AttrItems(num, attrs[i + 1..]));
        assert attrs[i..][1..] == attrs[i + 1..];
        Msg(num, SizeKeyValue(attrs[i]));
        PutKeyValue(attrs[i]);
        i := i + 1;
      }
    }

    // --------------------------------------------------------------- spans

    method PutStatus(st: Status)
      modifies this
      ensures b == old(b) + EncItems(StatusItems(st))
    {
      hide EncItems, StrItems, VarintItems, SizeItems, Missing;
      EncNothing();
      EncFour(b, [], StrItems(2, st.message), VarintItems(3, I64Wire(st.code)), []);
      PutStr(2, st.message);
      PutVarintF(3, I64Wire(st.code));
    }

    method PutEvent(ev: SpanEvent)
      modifies this
      ensures b == old(b) + EncItems(EventItems(ev))
    {
      hide EncItems, StrItems, VarintItems, Fixed64Items, AttrItems;
      EncFour(b, Fixed64Items(1, ev.timestamp), StrItems(2, ev.name), AttrItems(3, ev.attrs), VarintItems(4, ev.dropped));
      PutFixed64F(1, ev.timestamp);
      PutStr(2, ev.name);
      PutAttrs(3, ev.attrs);
      PutVarintF(4, ev.dropped);
    }

    method PutEvents(evs: seq<SpanEvent>)
      modifies this
      ensures b == old(b) + EncItems(EventsItems(evs))
    {
      hide Uvarint, Key, EncItems, EventItems, SizeItems, Missing, SizeEvent;
      EncNothing();
      var i := 0;
      assert evs[0..] == evs;
      while i < |evs|
        invariant 0 <= i <= |evs|
        invariant b + EncItems(EventsItems(evs[i..])) == old(b) + EncItems(EventsItems(evs))
      {
        EventSized(evs[i]);
        EncCons(11, EventItems(evs[i]), SizeEvent(evs[i]), EventsItems(evs[i + 1..]));
        assert evs[i..][1..] == evs[i + 1..];
        Msg(11, SizeEvent(evs[i]));
        PutEvent(evs[i]);
        i := i + 1;
      }
    }

    method PutId(num: nat, id: seq<byte>)
      modifies this
      ensures b == old(b) + EncItems(StrItems(num, Present(id)))
    {
      if id == Zeros(|id|) {
        EncNothing();
      } else {
        PutStr(num, id);
      }
    }

    method PutLink(lk: Link)
      modifies this
      ensures b == old(b) + EncItems(LinkItems(lk))
    {
      hide EncItems, StrItems, VarintItems, Fixed32Items, AttrItems, Present;
      EncNothing();
      ghost var pre := b;
      ghost var head := StrItems(1, Present(lk.traceId)) + StrItems(2, Present(lk.spanId)) + StrItems(3, lk.state) + AttrItems(4, lk.attrs);
      EncFour(pre, StrItems(1, Present(lk.traceId)), StrItems(2, Present(lk.spanId)), StrItems(3, lk.state), AttrItems(4, lk.attrs));
      PutId(1, lk.traceId);
      PutId(2, lk.spanId);
      PutStr(3, lk.state);
      PutAttrs(4, lk.attrs);
      EncFour(b, VarintItems(5, lk.dropped), Fixed32Items(6, lk.flags), [], []);
      PutVarintF(5, lk.dropped);
      PutFixed32F(6, lk.flags);
      EncTwo(pre, head, VarintItems(5, lk.dropped) + Fixed32Items(6, lk.flags) + [] + []);
    }

    method PutLinks(lks: seq<Link>)
      modifies this
      ensures b == old(b) + EncItems(LinksItems(lks))
    {
      hide Uvarint, Key, EncItems, LinkItems, SizeItems, Missing, SizeLink;
      EncNothing();
      var i := 0;
      assert lks[0..] == lks;
      while i < |lks|
        invariant 0 <= i <= |lks|
        invariant b + EncItems(LinksItems(lks[i..])) == old(b) + EncItems(LinksItems(lks))
      {
        LinkSized(lks[i]);
        EncCons(13, LinkItems(lks[i]), SizeLink(lks[i]), LinksItems(lks[i + 1..]));
        assert lks[i..][1..] == lks[i + 1..];
        Msg(13, SizeLink(lks[i]));
        PutLink(lks[i]);
        i := i + 1;
      }
    }

    method PutStatusField(st: Status)
      modifies this
      ensures b == old(b) + EncItems(StatusField(st))
    {
      hide Uvarint, Key, EncItems, StatusItems, SizeItems, Missing, SizeStatus;
      EncNothing();
      StatusSized(st);
      EncSub(15, StatusItems(st), SizeStatus(st));
      if SizeStatus(st) > 0 {
        Msg(15, SizeStatus(st));
        PutStatus(st);
      }
    }

    method PutSpan(sp: Span)
      modifies this
      ensures b == old(b) + EncItems(SpanItems(sp))
    {
      hide EncItems, StrItems, VarintItems, Fixed32Items, Fixed64Items, AttrItems, EventsItems, LinksItems, StatusField, Present;
      ghost var pre := b;
      ghost var one := StrItems(1, Present(sp.traceId)) + StrItems(2, Present(sp.spanId)) + StrItems(3, sp.state) + StrItems(4, Present(sp.parentId));
      ghost var two := StrItems(5, sp.name) + VarintItems(6, I64Wire(sp.kind)) + Fixed64Items(7, sp.start) + Fixed64Items(8, sp.end);
      ghost var three := AttrItems(9, sp.attrs) + VarintItems(10, sp.droppedAttrs) + EventsItems(sp.events) + VarintItems(12, sp.droppedEvents);
      ghost var four := LinksItems(sp.links) + VarintItems(14, sp.droppedLinks) + StatusField(sp.status) + Fixed32Items(16, sp.flags);
      EncFour(b, StrItems(1, Present(sp.traceId)), StrItems(2, Present(sp.spanId)), StrItems(3, sp.state), StrItems(4, Present(sp.parentId)));
      PutId(1, sp.traceId);
      PutId(2, sp.spanId);
      PutStr(3, sp.state);
      PutId(4, sp.parentId);
      EncFour(b, StrItems(5, sp.name), VarintItems(6, I64Wire(sp.kind)), Fixed64Items(7, sp.start), Fixed64Items(8, sp.end));
      PutStr(5, sp.name);
      PutVarintF(6, I64Wire(sp.kind));
      PutFixed64F(7, sp.start);
      PutFixed64F(8, sp.end);
      EncFour(b, AttrItems(9, sp.attrs), VarintItems(10, sp.droppedAttrs), EventsItems(sp.events), VarintItems(12, sp.droppedEvents));
      PutAttrs(9, sp.attrs);
      PutVarintF(10, sp.droppedAttrs);
      PutEvents(sp.events);
      PutVarintF(12, sp.droppedEvents);
      EncFour(b, LinksItems(sp.links), VarintItems(14, sp.droppedLinks), StatusField(sp.status), Fixed32Items(16, sp.flags));
      PutLinks(sp.links);
      PutVarintF(14, sp.droppedLinks);
      PutStatusField(sp.status);
      PutFixed32F(16, sp.flags);
      EncFour(pre, one, two, three, four);
    }

    method PutResource(res: Resource)
      modifies this
      ensures b == old(b) + EncItems(ResourceItems(res))
    {
      hide EncItems, VarintItems, AttrItems;
      EncNothing();
      EncFour(b, AttrItems(1, res.attrs), VarintItems(2, res.dropped), [], []);
      PutAttrs(1, res.attrs);
      PutVarintF(2, res.dropped);
    }

    method PutScope(sc: Scope)
      modifies this
      ensures b == old(b) + EncItems(ScopeItems(sc))
    {
      hide EncItems, StrItems, VarintItems, AttrItems;
      EncFour(b, StrItems(1, sc.name), StrItems(2, sc.version), AttrItems(3, sc.attrs), VarintItems(4, sc.dropped));
      PutStr(1, sc.name);
      PutStr(2, sc.version);
      PutAttrs(3, sc.attrs);
      PutVarintF(4, sc.dropped);
    }

    // -------------------------------------------------------------- groups

    /** One run of references under one scope. */
    method PutSSRun(ss: ScopeSpans, refs: seq<SpanRef>)
      requires NameSpans(ss.spans, refs)
      modifies this
      ensures b == old(b) + EncItems(SSItems(ss, refs))
    {
      hide Uvarint, Key, EncItems, ScopeItems, SpanItems, StrItems, SizeItems, Missing, SizeScope, SizeSpan;
      ghost var pre := b;
      ScopeSized(ss.scope);
      EncSub(1, ScopeItems(ss.scope), SizeScope(ss.scope));
      Msg(1, SizeScope(ss.scope));
      PutScope(ss.scope);
      ghost var header := b;
      assert header == pre + EncItems([Sub(1, ScopeItems(ss.scope))]);
      EncNothing();
      var i := 0;
      assert refs[0..] == refs;
      while i < |refs|
        invariant 0 <= i <= |refs|
        invariant b + EncItems(SpansItems(ss.spans, refs[i..])) == header + EncItems(SpansItems(ss.spans, refs))
      {
        var sp := ss.spans[refs[i].sp];
        SpanSized(sp);
        EncCons(2, SpanItems(sp), SizeSpan(sp), SpansItems(ss.spans, refs[i + 1..]));
        assert refs[i..][1..] == refs[i + 1..];
        Msg(2, SizeSpan(sp));
        PutSpan(sp);
        i := i + 1;
      }
      assert refs[i..] == [];
      PutStr(3, ss.schema);
      EncTwo(pre, [Sub(1, ScopeItems(ss.scope))], SpansItems(ss.spans, refs));
      EncTwo(pre, [Sub(1, ScopeItems(ss.scope))] + SpansItems(ss.spans, refs), StrItems(3, ss.schema));
    }

    /** One run of references under one resource, split where the scope changes. */
    method PutRSRun(rs: ResourceSpans, refs: seq<SpanRef>)
      requires NameScopes(rs, refs)
      modifies this
      ensures b == old(b) + EncItems(RSItems(rs, refs))
    {
      hide Uvarint, Key, EncItems, ResourceItems, SSItems, SSRunsItems, StrItems, SizeItems, Missing, SizeResource, SizeSSRun, ScopeRun;
      ghost var pre := b;
      ResourceSized(rs.resource);
      EncSub(1, ResourceItems(rs.resource), SizeResource(rs.resource));
      Msg(1, SizeResource(rs.resource));
      PutResource(rs.resource);
      ghost var header := b;
      assert header == pre + EncItems([Sub(1, ResourceItems(rs.resource))]);
      EncNothing();
      var k := 0;
      assert refs[0..] == refs;
      while k < |refs|
        invariant 0 <= k <= |refs|
        invariant b + EncItems(SSRunsItems(rs, refs[k..])) == header + EncItems(SSRunsItems(rs, refs))
      {
        var l := EndOfScopeRun(refs, k);
        ScopeRunStep(rs, refs, k, l);
        Msg(2, SizeSSRun(rs.scopes[refs[k].ss], refs[k..l]));
        PutSSRun(rs.scopes[refs[k].ss], refs[k..l]);
        k := l;
      }
      NoRunsLeft(rs, refs, k);
      PutStr(3, rs.schema);
      EncTwo(pre, [Sub(1, ResourceItems(rs.resource))], SSRunsItems(rs, refs));
      EncTwo(pre, [Sub(1, ResourceItems(rs.resource))] + SSRunsItems(rs, refs), StrItems(3, rs.schema));
    }

    /** A whole fragment: the references split where the resource changes. */
    method PutGroup(td: Batch, refs: seq<SpanRef>)
      requires NameBatch(td, refs)
      modifies this
      ensures b == old(b) + EncItems(GroupItems(td, refs))
    {
      hide Uvarint, Key, EncItems, RSItems, GroupItems, SizeItems, Missing, SizeRSRun, ResourceRun;
      EncNothing();
      var i := 0;
      assert refs[0..] == refs;
      while i < |refs|
        invariant 0 <= i <= |refs|
        invariant b + EncItems(GroupItems(td, refs[i..])) == old(b) + EncItems(GroupItems(td, refs))
      {
        var j := EndOfResourceRun(refs, i);
        ResourceRunStep(td, refs, i, j);
        Msg(1, SizeRSRun(td[refs[i].rs], refs[i..j]));
        PutRSRun(td[refs[i].rs], refs[i..j]);
        i := j;
      }
      NoGroupLeft(td, refs, i);
    }
  }

  lemma RunSlices(refs: seq<SpanRef>, i: nat, j: nat)
    requires i <= j <= |refs|
    ensures refs[i..][..j - i] == refs[i..j] && refs[i..][j - i..] == refs[j..]
  {
  }

  /** What is left to write from `k` on is one scope run, then what is left from its end on. */
  lemma ScopeRunStep(rs: ResourceSpans, refs: seq<SpanRef>, k: nat, l: nat)
    requires NameScopes(rs, refs) && k < l <= |refs| && l - k == ScopeRun(refs[k..])
    ensures refs[k].ss < |rs.scopes| && NameSpans(rs.scopes[refs[k].ss].spans, refs[k..l])
    ensures var ss, run := rs.scopes[refs[k].ss], refs[k..l];
            EncItems(SSRunsItems(rs, refs[k..]))
            == Key(2, LENGTH) + Uvarint(SizeSSRun(ss, run)) + EncItems(SSItems(ss, run)) + EncItems(SSRunsItems(rs, refs[l..]))
  {
    hide Uvarint, Key, EncItems, SSItems, SizeItems, Missing, SizeSSRun;
    RunSlices(refs, k, l);
    var ss, run := rs.scopes[refs[k].ss], refs[k..l];
    assert refs[k..][0] == refs[k];
    assert forall i :: 0 <= i < l - k ==> refs[k..][i] == run[i];
    SSRunSized(ss, run);
    EncCons(2, SSItems(ss, run), SizeSSRun(ss, run), SSRunsItems(rs, refs[l..]));
  }

  lemma NoRunsLeft(rs: ResourceSpans, refs: seq<SpanRef>, k: nat)
    requires k == |refs|
    ensures NameScopes(rs, refs[k..]) && SSRunsItems(rs, refs[k..]) == []
  {
  }

  /** Writing `whole` is writing one resource run, then the rest. */
  ghost predicate Splits(td: Batch, whole: seq<SpanRef>, rs: ResourceSpans, run: seq<SpanRef>, rest: seq<SpanRef>) {
    && NameBatch(td, whole) && NameScopes(rs, run) && NameBatch(td, rest)
    && EncItems(GroupItems(td, whole))
    == Key(1, LENGTH) + Uvarint(SizeRSRun(rs, run)) + EncItems(RSItems(rs, run)) + EncItems(GroupItems(td, rest))
  }

  lemma ResourceRunStep(td: Batch, refs: seq<SpanRef>, i: nat, j: nat)
    requires NameBatch(td, refs) && i < j <= |refs| && j - i == ResourceRun(refs[i..])
    ensures refs[i].rs < |td| && Splits(td, refs[i..], td[refs[i].rs], refs[i..j], refs[j..])
  {
    hide Splits, NameBatch, ResourceRun;
    NameRest(td, refs, i);
    GroupUnfold(td, refs[i..]);
    RunSlices(refs, i, j);
  }

  lemma GroupUnfold(td: Batch, refs: seq<SpanRef>)
    requires NameBatch(td, refs) && refs != []
    ensures refs[0].rs < |td| && Splits(td, refs, td[refs[0].rs], refs[..ResourceRun(refs)], refs[ResourceRun(refs)..])
  {
    hide Uvarint, Key, EncItems, RSItems, SizeItems, Missing, SizeRSRun, NameBatch, NameScopes, EmptyInScopes, EmptyBytesOf;
    var j := ResourceRun(refs);
    NameFirstRun(td, refs);
    NameRest(td, refs, j);
    var rs, run := td[refs[0].rs], refs[..j];
    SizeOfRun(rs, run);
    EncCons(1, RSItems(rs, run), SizeRSRun(rs, run), GroupItems(td, refs[j..]));
  }

  lemma SizeOfRun(rs: ResourceSpans, run: seq<SpanRef>)
    requires NameScopes(rs, run)
    ensures SizeItems(RSItems(rs, run)) == SizeRSRun(rs, run)
  {
    hide RSItems, SizeRSRun, SizeItems, Missing;
    RSRunSized(rs, run);
  }

  lemma NoGroupLeft(td: Batch, refs: seq<SpanRef>, i: nat)
    requires i == |refs|
    ensures NameBatch(td, refs[i..]) && GroupItems(td, refs[i..]) == []
  {
  }

  method EndOfResourceRun(refs: seq<SpanRef>, i: nat) returns (j: nat)
    requires i < |refs|
    ensures i < j <= |refs| && j - i == ResourceRun(refs[i..])
    ensures forall k :: i <= k < j ==> refs[k].rs == refs[i].rs
  {
    j := i;
    while j < |refs| && refs[j].rs == refs[i].rs
      invariant i <= j <= |refs|
      invariant forall k :: i <= k < j ==> refs[k].rs == refs[i].rs
    {
      j := j + 1;
    }
    ResourceRunIs(refs[i..], j - i);
  }

  method EndOfScopeRun(refs: seq<SpanRef>, i: nat) returns (j: nat)
    requires i < |refs|
    ensures i < j <= |refs| && j - i == ScopeRun(refs[i..])
    ensures forall k :: i <= k < j ==> refs[k].ss == refs[i].ss
  {
    j := i;
    while j < |refs| && refs[j].ss == refs[i].ss
      invariant i <= j <= |refs|
      invariant forall k :: i <= k < j ==> refs[k].ss == refs[i].ss
    {
      j := j + 1;
    }
    ScopeRunIs(refs[i..], j - i);
  }

  lemma OneByteVarint(v: nat)
    requires v < 128
    ensures Uvarint(v) == [v as byte]
  {
  }

  lemma UnwrittenIsNothing()
    ensures EncItem(Unwritten(7)) == []
  {
  }
}
