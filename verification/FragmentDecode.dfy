/**
 A reference decoder for whole fragments, and the round trip: decoding what the
 write pass emitted gives back the referenced spans, run by run.
 */
module FragmentDecode {
  import opened Types
  import opened Bytes
  import opened Wire
  import opened Values
  import opened Spans
  import opened SpanGroups
  import opened SpanDecode

  // ------------------------------------------------- what a fragment should hold

  function SpansAt(spans: seq<Span>, refs: seq<SpanRef>): (r: seq<Span>)
    requires NameSpans(spans, refs)
    ensures |r| == |refs|
  {
    if refs == [] then [] else [spans[refs[0].sp]] + SpansAt(spans, refs[1..])
  }

  /** The references under one resource, run by run of one scope. */
  function ScopeRuns(rs: ResourceSpans, refs: seq<SpanRef>): (runs: seq<ScopeSpans>)
    requires NameScopes(rs, refs)
    decreases |refs|
  {
    if refs == [] then []
    else
      var j, ss := ScopeRun(refs), rs.scopes[refs[0].ss];
      [ScopeSpans(ss.scope, SpansAt(ss.spans, refs[..j]), ss.schema)] + ScopeRuns(rs, refs[j..])
  }

  /** A group as a batch of its own: the references, run by run of one resource. */
  function RunsOf(td: Batch, refs: seq<SpanRef>): (runs: Batch)
    requires NameBatch(td, refs)
    decreases |refs|
  {
    if refs == [] then []
    else
      var j, rs := ResourceRun(refs), td[refs[0].rs];
      [ResourceSpans(rs.resource, ScopeRuns(rs, refs[..j]), rs.schema)] + RunsOf(td, refs[j..])
  }

  // ------------------------------------------------------------------ decoding

  function DecodeSpans(fs: seq<Field>): (r: Option<seq<Span>>) {
    if fs == [] then Some([])
    else if !fs[0].FBytes? then None
    else
      var sp, rest := DecodeSpan(fs[0].bytes), DecodeSpans(fs[1..]);
      if sp.None? || rest.None? then None else Some([sp.value] + rest.value)
  }

  function DecodeScopeSpans(b: seq<byte>): (r: Option<ScopeSpans>) {
    match Parse(b)
    case None => None
    case Some(fs) =>
      var scope, spans := DecodeScope(MsgIn(fs, 1)), DecodeSpans(Pick(fs, 2));
      if scope.None? || spans.None? then None else Some(ScopeSpans(scope.value, spans.value, StrIn(fs, 3)))
  }

  function DecodeScopes(fs: seq<Field>): (r: Option<seq<ScopeSpans>>) {
    if fs == [] then Some([])
    else if !fs[0].FBytes? then None
    else
      var first, rest := DecodeScopeSpans(fs[0].bytes), DecodeScopes(fs[1..]);
      if first.None? || rest.None? then None else Some([first.value] + rest.value)
  }

  function DecodeResourceSpans(b: seq<byte>): (r: Option<ResourceSpans>) {
    match Parse(b)
    case None => None
    case Some(fs) =>
      var resource, scopes := DecodeResource(MsgIn(fs, 1)), DecodeScopes(Pick(fs, 2));
      if resource.None? || scopes.None? then None else Some(ResourceSpans(resource.value, scopes.value, StrIn(fs, 3)))
  }

  function DecodeRuns(fs: seq<Field>): (r: Option<Batch>) {
    if fs == [] then Some([])
    else if !fs[0].FBytes? then None
    else
      var first, rest := DecodeResourceSpans(fs[0].bytes), DecodeRuns(fs[1..]);
      if first.None? || rest.None? then None else Some([first.value] + rest.value)
  }

  /** Decode a fragment, a TracesData message: its resource spans are field 1. */
  function DecodeFragment(b: seq<byte>): (r: Option<Batch>) {
    match Parse(b)
    case None => None
    case Some(fs) => DecodeRuns(Pick(fs, 1))
  }

  // ---------------------------------------------------------------- round trip

  lemma {:induction false} SpansBack(spans: seq<Span>, refs: seq<SpanRef>)
    requires NameSpans(spans, refs) && EmptyInSpans(spans, refs) == 0
    ensures Part(SpansItems(spans, refs), 2)
    ensures DecodeSpans(FieldsOf(SpansItems(spans, refs))) == Some(SpansAt(spans, refs))
  {
    hide Complete, SpanItems, DecodeSpan;
    if refs != [] {
      var sp := spans[refs[0].sp];
      SpanBack(sp);
      SubPart(2, SpanItems(sp));
      SpansBack(spans, refs[1..]);
      PartJoin([Sub(2, SpanItems(sp))], SpansItems(spans, refs[1..]), 2);
    }
  }

  /** A nested message first, repeated ones second, a schema string last. */
  lemma MessageThree(a: seq<Item>, b: seq<Item>, c: seq<Item>)
    requires Part(a, 1) && Part(b, 2) && Part(c, 3)
    ensures Complete(a) && Complete(b) && Complete(c) && Complete(a + b + c)
    ensures Pick(FieldsOf(a + b + c), 1) == FieldsOf(a)
    ensures Pick(FieldsOf(a + b + c), 2) == FieldsOf(b)
    ensures Pick(FieldsOf(a + b + c), 3) == FieldsOf(c)
  {
    NoPart(4);
    MessageFour(a, b, c, [], 1);
    assert a + b + c + [] == a + b + c;
  }

  lemma ScopeSpansBack(ss: ScopeSpans, refs: seq<SpanRef>)
    requires NameSpans(ss.spans, refs) && EmptyInSpans(ss.spans, refs) == 0 && EmptyBytesOf(ss.scope.attrs) == 0
    ensures Complete(SSItems(ss, refs))
    ensures DecodeScopeSpans(EncItems(SSItems(ss, refs))) == Some(ScopeSpans(ss.scope, SpansAt(ss.spans, refs), ss.schema))
  {
    hide Part, Complete, ScopeItems, SpansItems, StrItems, Parse, EncItems, Pick, StrIn, MsgIn, FieldsOf, DecodeScope, DecodeSpans;
    ScopeBack(ss.scope);
    SubPart(1, ScopeItems(ss.scope));
    SpansBack(ss.spans, refs);
    StrPart(3, ss.schema);
    MessageThree([Sub(1, ScopeItems(ss.scope))], SpansItems(ss.spans, refs), StrItems(3, ss.schema));
    CompleteParses(SSItems(ss, refs));
  }

  lemma {:induction false} ScopesBack(rs: ResourceSpans, refs: seq<SpanRef>)
    requires NameScopes(rs, refs) && EmptyInScopes(rs, refs) == 0
    ensures Part(SSRunsItems(rs, refs), 2)
    ensures DecodeScopes(FieldsOf(SSRunsItems(rs, refs))) == Some(ScopeRuns(rs, refs))
    decreases |refs|
  {
    hide Complete, SSItems, DecodeScopeSpans, EmptyInSpans, SpansAt;
    if refs != [] {
      var j := ScopeRun(refs);
      var ss := rs.scopes[refs[0].ss];
      ScopeSpansBack(ss, refs[..j]);
      SubPart(2, SSItems(ss, refs[..j]));
      ScopesBack(rs, refs[j..]);
      PartJoin([Sub(2, SSItems(ss, refs[..j]))], SSRunsItems(rs, refs[j..]), 2);
    }
  }

  lemma ResourceSpansBack(rs: ResourceSpans, refs: seq<SpanRef>)
    requires NameScopes(rs, refs) && EmptyInScopes(rs, refs) == 0 && EmptyBytesOf(rs.resource.attrs) == 0
    ensures Complete(RSItems(rs, refs))
    ensures DecodeResourceSpans(EncItems(RSItems(rs, refs))) == Some(ResourceSpans(rs.resource, ScopeRuns(rs, refs), rs.schema))
  {
    hide Part, Complete, ResourceItems, SSRunsItems, StrItems, Parse, EncItems, Pick, StrIn, MsgIn, FieldsOf, DecodeResource, DecodeScopes, EmptyInScopes;
    ResourceBack(rs.resource);
    SubPart(1, ResourceItems(rs.resource));
    ScopesBack(rs, refs);
    StrPart(3, rs.schema);
    MessageThree([Sub(1, ResourceItems(rs.resource))], SSRunsItems(rs, refs), StrItems(3, rs.schema));
    CompleteParses(RSItems(rs, refs));
  }

  lemma {:induction false} RunsBack(td: Batch, refs: seq<SpanRef>)
    requires NameBatch(td, refs) && EmptyInGroup(td, refs) == 0
    ensures Part(GroupItems(td, refs), 1)
    ensures DecodeRuns(FieldsOf(GroupItems(td, refs))) == Some(RunsOf(td, refs))
    decreases |refs|
  {
    if refs == [] {
      NoPart(1);
    } else {
      var j := ResourceRun(refs);
      NameFirstRun(td, refs);
      NameRest(td, refs, j);
      var rs := td[refs[0].rs];
      var items, rest := RSItems(rs, refs[..j]), GroupItems(td, refs[j..]);
      assert GroupItems(td, refs) == [Sub(1, items)] + rest;
      hide GroupItems, RSItems, NameBatch, NameScopes, ResourceRun, Part, Complete, DecodeRuns, EmptyInScopes, EmptyBytesOf;
      ResourceSpansBack(rs, refs[..j]);
      RunsBack(td, refs[j..]);
      RunsCons(items, rest, ResourceSpans(rs.resource, ScopeRuns(rs, refs[..j]), rs.schema), RunsOf(td, refs[j..]));
    }
  }

  /** One more run in front. */
  lemma RunsCons(items: seq<Item>, rest: seq<Item>, run: ResourceSpans, runs: Batch)
    requires Complete(items) && DecodeResourceSpans(EncItems(items)) == Some(run)
    requires Part(rest, 1) && DecodeRuns(FieldsOf(rest)) == Some(runs)
    ensures Part([Sub(1, items)] + rest, 1) && DecodeRuns(FieldsOf([Sub(1, items)] + rest)) == Some([run] + runs)
  {
    hide DecodeResourceSpans, EncItems;
    SubPart(1, items);
    PartJoin([Sub(1, items)], rest, 1);
    var fs := FieldsOf([Sub(1, items)] + rest);
    assert fs[1..] == FieldsOf(rest);
  }

  /**
   For every batch and every list of references without an empty bytes value:
   decoding the fragment gives back the referenced spans, run by run, each under
   its own resource and scope.
   */
  lemma FragmentRoundTrip(td: Batch, refs: seq<SpanRef>)
    requires NameBatch(td, refs) && EmptyInGroup(td, refs) == 0
    ensures DecodeFragment(EncItems(GroupItems(td, refs))) == Some(RunsOf(td, refs))
  {
    hide Parse, EncItems, GroupItems, RunsOf, EmptyInGroup, NameBatch, DecodeRuns;
    RunsBack(td, refs);
    PartFields(GroupItems(td, refs), 1);
    PickOwn(FieldsOf(GroupItems(td, refs)), 1, 1);
    CompleteParses(GroupItems(td, refs));
  }

  // ------------------------------------------------ runs hold the references

  /** A span with the resource and scope it is found under. */
  datatype Placed = Placed(resource: Resource, resourceSchema: seq<byte>, scope: Scope, scopeSchema: seq<byte>, span: Span)

  function PlacedIn(spans: seq<Span>, res: Resource, resSchema: seq<byte>, scope: Scope, schema: seq<byte>): (ps: seq<Placed>)
    ensures |ps| == |spans|
  {
    if spans == [] then [] else [Placed(res, resSchema, scope, schema, spans[0])] + PlacedIn(spans[1..], res, resSchema, scope, schema)
  }

  function PlacedUnder(runs: seq<ScopeSpans>, res: Resource, resSchema: seq<byte>): (ps: seq<Placed>) {
    if runs == [] then []
    else PlacedIn(runs[0].spans, res, resSchema, runs[0].scope, runs[0].schema) + PlacedUnder(runs[1..], res, resSchema)
  }

  /** The spans of a batch in batch order, each with its resource and scope. */
  function Flat(td: Batch): (ps: seq<Placed>) {
    if td == [] then [] else PlacedUnder(td[0].scopes, td[0].resource, td[0].schema) + Flat(td[1..])
  }

  /** The spans a list of references names, in its order. */
  function Selected(td: Batch, refs: seq<SpanRef>): (ps: seq<Placed>)
    requires NameBatch(td, refs)
    ensures |ps| == |refs|
  {
    if refs == [] then []
    else
      var rs := td[refs[0].rs];
      var ss := rs.scopes[refs[0].ss];
      [Placed(rs.resource, rs.schema, ss.scope, ss.schema, ss.spans[refs[0].sp])] + Selected(td, refs[1..])
  }

  function SelectedUnder(rs: ResourceSpans, refs: seq<SpanRef>): (ps: seq<Placed>)
    requires NameScopes(rs, refs)
  {
    if refs == [] then []
    else
      var ss := rs.scopes[refs[0].ss];
      [Placed(rs.resource, rs.schema, ss.scope, ss.schema, ss.spans[refs[0].sp])] + SelectedUnder(rs, refs[1..])
  }

  /** A run under one scope selects that scope's spans. */
  lemma {:induction false} RunSelects(rs: ResourceSpans, refs: seq<SpanRef>, j: nat)
    requires NameScopes(rs, refs) && 0 < j <= |refs|
    requires forall i :: 0 <= i < j ==> refs[i].ss == refs[0].ss
    requires NameSpans(rs.scopes[refs[0].ss].spans, refs[..j])
    ensures var ss := rs.scopes[refs[0].ss];
            SelectedUnder(rs, refs)
            == PlacedIn(SpansAt(ss.spans, refs[..j]), rs.resource, rs.schema, ss.scope, ss.schema) + SelectedUnder(rs, refs[j..])
  {
    assert refs[..j][1..] == refs[1..][..j - 1];
    assert refs[1..][j - 1..] == refs[j..];
    var ss := rs.scopes[refs[0].ss];
    var rest := SpansAt(ss.spans, refs[..j][1..]);
    assert SpansAt(ss.spans, refs[..j]) == [ss.spans[refs[0].sp]] + rest;
    PlacedCons(ss.spans[refs[0].sp], rest, rs.resource, rs.schema, ss.scope, ss.schema);
    hide PlacedIn, SpansAt;
    if j == 1 {
      NothingPlaced(ss.spans, rs.resource, rs.schema, ss.scope, ss.schema);
      assert refs[..1][1..] == [];
    } else {
      RunSelects(rs, refs[1..], j - 1);
    }
  }

  lemma PlacedCons(sp: Span, rest: seq<Span>, res: Resource, resSchema: seq<byte>, scope: Scope, schema: seq<byte>)
    ensures PlacedIn([sp] + rest, res, resSchema, scope, schema)
         == [Placed(res, resSchema, scope, schema, sp)] + PlacedIn(rest, res, resSchema, scope, schema)
  {
    assert ([sp] + rest)[1..] == rest;
  }

  lemma NothingPlaced(spans: seq<Span>, res: Resource, resSchema: seq<byte>, scope: Scope, schema: seq<byte>)
    ensures PlacedIn([], res, resSchema, scope, schema) == [] && SpansAt(spans, []) == []
  {
  }

  lemma {:induction false} ScopeRunsHold(rs: ResourceSpans, refs: seq<SpanRef>)
    requires NameScopes(rs, refs)
    ensures PlacedUnder(ScopeRuns(rs, refs), rs.resource, rs.schema) == SelectedUnder(rs, refs)
    decreases |refs|
  {
    hide SpansAt, PlacedIn;
    if refs != [] {
      var j := ScopeRun(refs);
      ScopeRunsHold(rs, refs[j..]);
      RunSelects(rs, refs, j);
    }
  }

  lemma {:induction false} RunSelected(td: Batch, refs: seq<SpanRef>, j: nat)
    requires NameBatch(td, refs) && 0 < j <= |refs|
    requires forall i :: 0 <= i < j ==> refs[i].rs == refs[0].rs
    requires NameScopes(td[refs[0].rs], refs[..j])
    ensures Selected(td, refs) == SelectedUnder(td[refs[0].rs], refs[..j]) + Selected(td, refs[j..])
  {
    assert refs[..j][1..] == refs[1..][..j - 1];
    assert refs[1..][j - 1..] == refs[j..];
    if j == 1 {
      assert refs[..1][1..] == [];
    } else {
      RunSelected(td, refs[1..], j - 1);
    }
  }

  /** Splitting into runs loses, adds and reorders nothing. */
  lemma {:induction false} RunsHoldSelected(td: Batch, refs: seq<SpanRef>)
    requires NameBatch(td, refs)
    ensures Flat(RunsOf(td, refs)) == Selected(td, refs)
    decreases |refs|
  {
    hide ScopeRuns, SelectedUnder, PlacedUnder;
    if refs != [] {
      var j := ResourceRun(refs);
      ScopeRunsHold(td[refs[0].rs], refs[..j]);
      RunsHoldSelected(td, refs[j..]);
      RunSelected(td, refs, j);
    }
  }
}
