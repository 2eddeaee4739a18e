/**
 A group of span references as one fragment: runs that share a resource, and
 inside them runs that share a scope, each written as one nested message.
 */
module SpanGroups {
  import opened Wire
  import opened Values
  import opened Spans

  type Batch = seq<ResourceSpans>

  predicate NameSpans(spans: seq<Span>, refs: seq<SpanRef>) {
    forall i :: 0 <= i < |refs| ==> refs[i].sp < |spans|
  }

  predicate NameScopes(rs: ResourceSpans, refs: seq<SpanRef>) {
    forall i :: 0 <= i < |refs| ==> refs[i].ss < |rs.scopes| && refs[i].sp < |rs.scopes[refs[i].ss].spans|
  }

  /** Every reference names a span of the batch. */
  predicate NameBatch(td: Batch, refs: seq<SpanRef>) {
    forall i :: 0 <= i < |refs| ==>
      && refs[i].rs < |td|
      && refs[i].ss < |td[refs[i].rs].scopes|
      && refs[i].sp < |td[refs[i].rs].scopes[refs[i].ss].spans|
  }

  /** Length of the longest prefix of references under the first one's resource. */
  function ResourceRun(refs: seq<SpanRef>): (n: nat)
    requires refs != []
    ensures 0 < n <= |refs|
    ensures forall i :: 0 <= i < n ==> refs[i].rs == refs[0].rs
    ensures n < |refs| ==> refs[n].rs != refs[0].rs
  {
    if |refs| == 1 || refs[1].rs != refs[0].rs then 1 else 1 + ResourceRun(refs[1..])
  }

  /** Length of the longest prefix of references under the first one's scope. */
  function ScopeRun(refs: seq<SpanRef>): (n: nat)
    requires refs != []
    ensures 0 < n <= |refs|
    ensures forall i :: 0 <= i < n ==> refs[i].ss == refs[0].ss
    ensures n < |refs| ==> refs[n].ss != refs[0].ss
  {
    if |refs| == 1 || refs[1].ss != refs[0].ss then 1 else 1 + ScopeRun(refs[1..])
  }

  lemma {:induction false} ResourceRunIs(refs: seq<SpanRef>, n: nat)
    requires 0 < n <= |refs|
    requires forall i :: 0 <= i < n ==> refs[i].rs == refs[0].rs
    requires n < |refs| ==> refs[n].rs != refs[0].rs
    ensures ResourceRun(refs) == n
  {
    if n > 1 {
      ResourceRunIs(refs[1..], n - 1);
    }
  }

  lemma {:induction false} ScopeRunIs(refs: seq<SpanRef>, n: nat)
    requires 0 < n <= |refs|
    requires forall i :: 0 <= i < n ==> refs[i].ss == refs[0].ss
    requires n < |refs| ==> refs[n].ss != refs[0].ss
    ensures ScopeRun(refs) == n
  {
    if n > 1 {
      ScopeRunIs(refs[1..], n - 1);
    }
  }

  lemma NameRest(td: Batch, refs: seq<SpanRef>, i: nat)
    requires NameBatch(td, refs) && i <= |refs|
    ensures NameBatch(td, refs[i..])
  {
  }

  lemma NameFirstRun(td: Batch, refs: seq<SpanRef>)
    requires NameBatch(td, refs) && refs != []
    ensures refs[0].rs < |td| && NameScopes(td[refs[0].rs], refs[..ResourceRun(refs)])
  {
    var run := refs[..ResourceRun(refs)];
    forall k | 0 <= k < |run|
      ensures run[k].ss < |td[refs[0].rs].scopes| && run[k].sp < |td[refs[0].rs].scopes[run[k].ss].spans|
    {
      assert run[k] == refs[k] && refs[k].rs == refs[0].rs;
    }
  }

  // --------------------------------------------------------------- size pass

  function SizeSpans(spans: seq<Span>, refs: seq<SpanRef>): (n: nat)
    requires NameSpans(spans, refs)
  {
    if refs == [] then 0
    else
      SizeLen(2, SizeSpan(spans[refs[0].sp])) + SizeSpans(spans, refs[1..])
  }

  function SizeSSRun(ss: ScopeSpans, refs: seq<SpanRef>): (n: nat)
    requires NameSpans(ss.spans, refs)
  {
    SizeLen(1, SizeScope(ss.scope)) + SizeSpans(ss.spans, refs) + SizeStr(3, ss.schema)
  }

  function SizeSSRuns(rs: ResourceSpans, refs: seq<SpanRef>): (n: nat)
    requires NameScopes(rs, refs)
    decreases |refs|
  {
    if refs == [] then 0
    else
      var j := ScopeRun(refs);
      SizeLen(2, SizeSSRun(rs.scopes[refs[0].ss], refs[..j])) + SizeSSRuns(rs, refs[j..])
  }

  function SizeRSRun(rs: ResourceSpans, refs: seq<SpanRef>): (n: nat)
    requires NameScopes(rs, refs)
  {
    SizeLen(1, SizeResource(rs.resource)) + SizeSSRuns(rs, refs) + SizeStr(3, rs.schema)
  }

  function SizeGroup(td: Batch, refs: seq<SpanRef>): (n: nat)
    requires NameBatch(td, refs)
    decreases |refs|
  {
    if refs == [] then 0
    else
      var j := ResourceRun(refs);
      SizeLen(1, SizeRSRun(td[refs[0].rs], refs[..j])) + SizeGroup(td, refs[j..])
  }

  // -------------------------------------------------------------- write pass

  function SpansItems(spans: seq<Span>, refs: seq<SpanRef>): (items: seq<Item>)
    requires NameSpans(spans, refs)
    ensures |items| == |refs|
  {
    if refs == [] then []
    else
      [Sub(2, SpanItems(spans[refs[0].sp]))] + SpansItems(spans, refs[1..])
  }

  function SSItems(ss: ScopeSpans, refs: seq<SpanRef>): (items: seq<Item>)
    requires NameSpans(ss.spans, refs)
  {
    [Sub(1, ScopeItems(ss.scope))] + SpansItems(ss.spans, refs) + StrItems(3, ss.schema)
  }

  function SSRunsItems(rs: ResourceSpans, refs: seq<SpanRef>): (items: seq<Item>)
    requires NameScopes(rs, refs)
    decreases |refs|
  {
    if refs == [] then []
    else
      var j := ScopeRun(refs);
      [Sub(2, SSItems(rs.scopes[refs[0].ss], refs[..j]))] + SSRunsItems(rs, refs[j..])
  }

  function RSItems(rs: ResourceSpans, refs: seq<SpanRef>): (items: seq<Item>)
    requires NameScopes(rs, refs)
  {
    [Sub(1, ResourceItems(rs.resource))] + SSRunsItems(rs, refs) + StrItems(3, rs.schema)
  }

  function GroupItems(td: Batch, refs: seq<SpanRef>): (items: seq<Item>)
    requires NameBatch(td, refs)
    decreases |refs|
  {
    if refs == [] then []
    else
      var j := ResourceRun(refs);
      [Sub(1, RSItems(td[refs[0].rs], refs[..j]))] + GroupItems(td, refs[j..])
  }

  // ------------------------------------------------- the size pass is right

  function EmptyInSpans(spans: seq<Span>, refs: seq<SpanRef>): (n: nat)
    requires NameSpans(spans, refs)
  {
    if refs == [] then 0
    else
      EmptyInSpan(spans[refs[0].sp]) + EmptyInSpans(spans, refs[1..])
  }

  function EmptyInScopes(rs: ResourceSpans, refs: seq<SpanRef>): (n: nat)
    requires NameScopes(rs, refs)
    decreases |refs|
  {
    if refs == [] then 0
    else
      var j := ScopeRun(refs);
      var ss := rs.scopes[refs[0].ss];
      EmptyBytesOf(ss.scope.attrs) + EmptyInSpans(ss.spans, refs[..j]) + EmptyInScopes(rs, refs[j..])
  }

  /** Empty bytes values anywhere in what the group writes. */
  function EmptyInGroup(td: Batch, refs: seq<SpanRef>): (n: nat)
    requires NameBatch(td, refs)
    decreases |refs|
  {
    if refs == [] then 0
    else
      var j := ResourceRun(refs);
      var rs := td[refs[0].rs];
      EmptyBytesOf(rs.resource.attrs) + EmptyInScopes(rs, refs[..j]) + EmptyInGroup(td, refs[j..])
  }

  lemma {:induction false} SpansSized(spans: seq<Span>, refs: seq<SpanRef>)
    requires NameSpans(spans, refs)
    ensures Sized(SpansItems(spans, refs), SizeSpans(spans, refs), 2 * EmptyInSpans(spans, refs))
  {
    hide Sized, SizeLen, SpanItems, SizeSpan;
    if refs == [] {
      SizedNothing();
    } else {
      var sp := spans[refs[0].sp];
      SpanSized(sp);
      SizedSub(2, SpanItems(sp), SizeSpan(sp), 2 * EmptyInSpan(sp));
      SpansSized(spans, refs[1..]);
      SizedAppend([Sub(2, SpanItems(sp))], SpansItems(spans, refs[1..]), SizeLen(2, SizeSpan(sp)), SizeSpans(spans, refs[1..]),
                  2 * EmptyInSpan(sp), 2 * EmptyInSpans(spans, refs[1..]));
    }
  }

  /** Three parts of a message in a row. */
  lemma SizedThree(a: seq<Item>, b: seq<Item>, c: seq<Item>, n: nat, m: nat, k: nat, x: nat, y: nat)
    requires Sized(a, n, x) && Sized(b, m, y) && Sized(c, k, 0)
    ensures Sized(a + b + c, n + m + k, x + y)
  {
    EncAppend(a, b);
    EncAppend(a + b, c);
  }

  lemma SSRunSized(ss: ScopeSpans, refs: seq<SpanRef>)
    requires NameSpans(ss.spans, refs)
    ensures Sized(SSItems(ss, refs), SizeSSRun(ss, refs), 2 * EmptyBytesOf(ss.scope.attrs) + 2 * EmptyInSpans(ss.spans, refs))
  {
    hide Sized, SizeLen, ScopeItems, SizeScope, SpansItems, SizeSpans, StrItems, SizeStr;
    ScopeSized(ss.scope);
    SizedSub(1, ScopeItems(ss.scope), SizeScope(ss.scope), 2 * EmptyBytesOf(ss.scope.attrs));
    SpansSized(ss.spans, refs);
    SizedStr(3, ss.schema);
    SizedThree([Sub(1, ScopeItems(ss.scope))], SpansItems(ss.spans, refs), StrItems(3, ss.schema),
               SizeLen(1, SizeScope(ss.scope)), SizeSpans(ss.spans, refs), SizeStr(3, ss.schema),
               2 * EmptyBytesOf(ss.scope.attrs), 2 * EmptyInSpans(ss.spans, refs));
  }

  lemma {:induction false} SSRunsSized(rs: ResourceSpans, refs: seq<SpanRef>)
    requires NameScopes(rs, refs)
    ensures Sized(SSRunsItems(rs, refs), SizeSSRuns(rs, refs), 2 * EmptyInScopes(rs, refs))
    decreases |refs|
  {
    hide Sized, SizeLen, SSItems, SizeSSRun, EmptyInSpans;
    if refs == [] {
      SizedNothing();
    } else {
      var j := ScopeRun(refs);
      var ss, run := rs.scopes[refs[0].ss], refs[..j];
      var missing := 2 * EmptyBytesOf(ss.scope.attrs) + 2 * EmptyInSpans(ss.spans, run);
      SSRunSized(ss, run);
      SizedSub(2, SSItems(ss, run), SizeSSRun(ss, run), missing);
      SSRunsSized(rs, refs[j..]);
      SizedAppend([Sub(2, SSItems(ss, run))], SSRunsItems(rs, refs[j..]), SizeLen(2, SizeSSRun(ss, run)), SizeSSRuns(rs, refs[j..]),
                  missing, 2 * EmptyInScopes(rs, refs[j..]));
    }
  }

  lemma RSRunSized(rs: ResourceSpans, refs: seq<SpanRef>)
    requires NameScopes(rs, refs)
    ensures Sized(RSItems(rs, refs), SizeRSRun(rs, refs), 2 * EmptyBytesOf(rs.resource.attrs) + 2 * EmptyInScopes(rs, refs))
  {
    hide Sized, SizeLen, ResourceItems, SizeResource, SSRunsItems, SizeSSRuns, StrItems, SizeStr, EmptyInScopes;
    ResourceSized(rs.resource);
    SizedSub(1, ResourceItems(rs.resource), SizeResource(rs.resource), 2 * EmptyBytesOf(rs.resource.attrs));
    SSRunsSized(rs, refs);
    SizedStr(3, rs.schema);
    SizedThree([Sub(1, ResourceItems(rs.resource))], SSRunsItems(rs, refs), StrItems(3, rs.schema),
               SizeLen(1, SizeResource(rs.resource)), SizeSSRuns(rs, refs), SizeStr(3, rs.schema),
               2 * EmptyBytesOf(rs.resource.attrs), 2 * EmptyInScopes(rs, refs));
  }

  lemma {:induction false} GroupSized(td: Batch, refs: seq<SpanRef>)
    requires NameBatch(td, refs)
    ensures Sized(GroupItems(td, refs), SizeGroup(td, refs), 2 * EmptyInGroup(td, refs))
    decreases |refs|
  {
    hide Sized, SizeLen, RSItems, SizeRSRun, EmptyInScopes;
    if refs == [] {
      SizedNothing();
    } else {
      var j := ResourceRun(refs);
      var rs, run := td[refs[0].rs], refs[..j];
      var missing := 2 * EmptyBytesOf(rs.resource.attrs) + 2 * EmptyInScopes(rs, run);
      RSRunSized(rs, run);
      SizedSub(1, RSItems(rs, run), SizeRSRun(rs, run), missing);
      GroupSized(td, refs[j..]);
      SizedAppend([Sub(1, RSItems(rs, run))], GroupItems(td, refs[j..]), SizeLen(1, SizeRSRun(rs, run)), SizeGroup(td, refs[j..]),
                  missing, 2 * EmptyInGroup(td, refs[j..]));
    }
  }

  /** For every batch and every list of references, the write pass emits exactly the size computed, less two bytes for each empty bytes value. */
  lemma GroupTwoPass(td: Batch, refs: seq<SpanRef>)
    requires NameBatch(td, refs)
    ensures |EncItems(GroupItems(td, refs))| + 2 * EmptyInGroup(td, refs) == SizeGroup(td, refs)
    ensures |EncItems(GroupItems(td, refs))| == SizeGroup(td, refs) <==> EmptyInGroup(td, refs) == 0
  {
    GroupSized(td, refs);
    TwoPass(GroupItems(td, refs));
  }
}
