/** The final nodes of a trace (build_trace_json, src/api_analysis.cpp): the merged groups in the order of their start,
    the reference of each node to the node of its parent, and the pixels. */
module TraceNodes {
  import opened Common
  import opened OptionsOrder
  import opened TracePixels
  import opened TraceUnion
  import opened TraceGraph

  // ---- the order of the spans of a group ----

  predicate SpanBefore(a: Span, b: Span) {
    a.start < b.start || (a.start == b.start && a.finish < b.finish)
  }

  function InsertedSpan(sorted: seq<Span>, s: Span): seq<Span> {
    if sorted == [] || !SpanBefore(s, sorted[|sorted| - 1]) then sorted + [s]
    else InsertedSpan(sorted[..|sorted| - 1], s) + [sorted[|sorted| - 1]]
  }

  function SortedOf(spans: seq<Span>): seq<Span> {
    if spans == [] then [] else InsertedSpan(SortedOf(spans[..|spans| - 1]), spans[|spans| - 1])
  }

  lemma SortedAppend(sorted: seq<Span>, s: Span)
    requires SortedSpans(sorted) && (sorted != [] ==> !SpanBefore(s, sorted[|sorted| - 1]))
    ensures SortedSpans(sorted + [s])
  {
  }

  lemma {:induction false} InsertedIsSorted(sorted: seq<Span>, s: Span)
    requires SortedSpans(sorted)
    ensures SortedSpans(InsertedSpan(sorted, s))
  {
    hide SortedSpans;
    if sorted != [] && SpanBefore(s, sorted[|sorted| - 1]) {
      var last, front := sorted[|sorted| - 1], sorted[..|sorted| - 1];
      SortedFront(sorted);
      InsertedIsSorted(front, s);
      LastOfInserted(front, s);
      SortedAppend(InsertedSpan(front, s), last);
    } else {
      SortedAppend(sorted, s);
    }
  }

  lemma SortedFront(sorted: seq<Span>)
    requires SortedSpans(sorted) && sorted != []
    ensures SortedSpans(sorted[..|sorted| - 1])
    ensures |sorted| > 1 ==> !SpanBefore(sorted[|sorted| - 1], sorted[|sorted| - 2])
  {
  }

  lemma {:induction false} InsertedSpans(sorted: seq<Span>, s: Span)
    ensures multiset(InsertedSpan(sorted, s)) == multiset(sorted) + multiset{s}
  {
    hide SpanBefore;
    if sorted != [] && SpanBefore(s, sorted[|sorted| - 1]) {
      assert sorted == sorted[..|sorted| - 1] + [sorted[|sorted| - 1]];
      InsertedSpans(sorted[..|sorted| - 1], s);
    }
  }

  lemma LastOfInserted(sorted: seq<Span>, s: Span)
    ensures InsertedSpan(sorted, s) != []
    ensures var last := InsertedSpan(sorted, s)[|InsertedSpan(sorted, s)| - 1];
            last == s || (sorted != [] && last == sorted[|sorted| - 1])
  {
  }

  /** std::sort of pairs has one result. */
  lemma {:induction false} SortedOfIsSorted(spans: seq<Span>)
    ensures SortedSpans(SortedOf(spans)) && multiset(SortedOf(spans)) == multiset(spans)
  {
    hide InsertedSpan, SortedSpans;
    if spans != [] {
      var last := |spans| - 1;
      SortedOfIsSorted(spans[..last]);
      InsertedIsSorted(SortedOf(spans[..last]), spans[last]);
      InsertedSpans(SortedOf(spans[..last]), spans[last]);
      assert spans == spans[..last] + [spans[last]];
    } else {
      NothingSorted();
    }
  }

  lemma NothingSorted()
    ensures SortedSpans([])
  {
  }

  // ---- the nodes in their order ----

  function MergedNode(p: Pending): Pending {
    p.(segments := Merged(SortedOf(p.segments)))
  }

  function MergedNodes(pending: seq<Pending>): seq<Pending> {
    seq(|pending|, k requires 0 <= k < |pending| => MergedNode(pending[k]))
  }

  method MergeNodes(pending: seq<Pending>) returns (merged: seq<Pending>)
    requires forall k | 0 <= k < |pending| :: pending[k].leaf || |pending[k].segments| == 1
    ensures merged == MergedNodes(pending)
  {
    hide MergedNode, SortedOf, Merged;
    merged := [];
    for k := 0 to |pending|
      invariant |merged| == k && forall i | 0 <= i < k :: merged[i] == MergedNode(pending[i])
    {
      var p := pending[k];
      FewSorted(p);
      if p.leaf && |p.segments| >= 2 {
        var segments := MergeSpans(SortedOf(p.segments));
        p := p.(segments := segments);
      }
      merged := merged + [p];
    }
  }

  lemma FewSorted(p: Pending)
    ensures |p.segments| < 2 ==> MergedNode(p) == p
    ensures MergedNode(p) == p.(segments := Merged(SortedOf(p.segments)))
  {
    hide Merged, SortedOf;
    if |p.segments| < 2 {
      FewInOrder(p.segments);
      FewSpans(p.segments);
    }
  }

  lemma FewInOrder(spans: seq<Span>)
    requires |spans| < 2
    ensures SortedOf(spans) == spans
  {
    if |spans| == 1 {
      assert spans[..0] == [];
      assert SortedOf([]) == [];
      assert InsertedSpan([], spans[0]) == [spans[0]] == spans;
    }
  }

  function FirstStart(p: Pending): nat {
    if p.segments == [] then 0 else p.segments[0].start
  }

  /** The order of the nodes: the start, then the ids. */
  predicate NodeBefore(a: Pending, b: Pending) {
    if FirstStart(a) != FirstStart(b) then FirstStart(a) < FirstStart(b)
    else if a.trace != b.trace then LexLess(a.trace, b.trace)
    else if a.parent != b.parent then LexLess(a.parent, b.parent)
    else if a.operation != b.operation then LexLess(a.operation, b.operation)
    else LexLess(a.source, b.source)
  }

  function Keys(p: Pending): seq<string> {
    [p.trace, p.parent, p.operation, p.source]
  }

  /** The first text that differs is lower. */
  predicate KeysBefore(a: seq<string>, b: seq<string>) {
    exists k | 0 <= k < |a| && k < |b| :: (forall j | 0 <= j < k :: a[j] == b[j]) && LexLess(a[k], b[k])
  }

  lemma NodeBeforeMeaning(a: Pending, b: Pending)
    ensures NodeBefore(a, b) <==>
              FirstStart(a) < FirstStart(b) || (FirstStart(a) == FirstStart(b) && KeysBefore(Keys(a), Keys(b)))
  {
    LexIrreflexive(a.trace);
    LexIrreflexive(a.parent);
    LexIrreflexive(a.operation);
    hide LexLess;
    var x, y := Keys(a), Keys(b);
    assert x[0] == a.trace && x[1] == a.parent && x[2] == a.operation && x[3] == a.source;
    assert y[0] == b.trace && y[1] == b.parent && y[2] == b.operation && y[3] == b.source;
  }

  lemma NodeBeforeAsymmetric(a: Pending, b: Pending)
    requires NodeBefore(a, b)
    ensures !NodeBefore(b, a)
  {
    LexAsymmetric(a.trace, b.trace);
    LexAsymmetric(a.parent, b.parent);
    LexAsymmetric(a.operation, b.operation);
    LexAsymmetric(a.source, b.source);
  }

  lemma LexAsymmetric(a: string, b: string)
    ensures !(LexLess(a, b) && LexLess(b, a))
  {
    if LexLess(a, b) && LexLess(b, a) {
      LexTransitive(a, b, a);
      LexIrreflexive(a);
    }
  }

  /** Nothing comes before its left neighbour. */
  predicate Arranged(nodes: seq<Pending>) {
    forall i | 0 < i < |nodes| :: !NodeBefore(nodes[i], nodes[i - 1])
  }

  function InsertedNode(nodes: seq<Pending>, p: Pending): seq<Pending> {
    if nodes == [] || !NodeBefore(p, nodes[|nodes| - 1]) then nodes + [p]
    else InsertedNode(nodes[..|nodes| - 1], p) + [nodes[|nodes| - 1]]
  }

  lemma {:induction false} InsertedArranged(nodes: seq<Pending>, p: Pending)
    requires Arranged(nodes)
    ensures Arranged(InsertedNode(nodes, p)) && InsertedNode(nodes, p) != []
    ensures var after := InsertedNode(nodes, p); var last := after[|after| - 1];
            last == p || (nodes != [] && last == nodes[|nodes| - 1])
  {
    hide NodeBefore;
    if nodes != [] && NodeBefore(p, nodes[|nodes| - 1]) {
      var last := nodes[|nodes| - 1];
      var front := nodes[..|nodes| - 1];
      assert nodes == front + [last];
      InsertedArranged(front, p);
      NodeBeforeAsymmetric(p, last);
    }
  }

  lemma {:induction false} InsertedNodes(nodes: seq<Pending>, p: Pending)
    ensures multiset(InsertedNode(nodes, p)) == multiset(nodes) + multiset{p}
  {
    hide NodeBefore;
    if nodes != [] && NodeBefore(p, nodes[|nodes| - 1]) {
      assert nodes == nodes[..|nodes| - 1] + [nodes[|nodes| - 1]];
      InsertedNodes(nodes[..|nodes| - 1], p);
    }
  }

  /** std::sort, with one choice among the orders that it can give. */
  method SortNodes(pending: seq<Pending>) returns (nodes: seq<Pending>)
    ensures Arranged(nodes) && multiset(nodes) == multiset(pending)
  {
    hide InsertedNode, Arranged;
    nodes := [];
    NothingArranged();
    for k := 0 to |pending|
      invariant Arranged(nodes) && multiset(nodes) == multiset(pending[..k])
    {
      InsertedArranged(nodes, pending[k]);
      InsertedNodes(nodes, pending[k]);
      assert pending[..k + 1] == pending[..k] + [pending[k]];
      nodes := InsertedNode(nodes, pending[k]);
    }
    assert pending[..|pending|] == pending;
  }

  lemma NothingArranged()
    ensures Arranged([])
  {
  }

  // ---- the parents ----

  predicate IsNodeOf(p: Pending, trace: string, id: string) {
    p.source != "" && p.source == id && p.trace == trace
  }

  /** The first node of a span, or the number of nodes. */
  function FirstNode(nodes: seq<Pending>, trace: string, id: string): (i: nat)
    ensures i <= |nodes|
    ensures i < |nodes| ==> IsNodeOf(nodes[i], trace, id)
    ensures forall k | 0 <= k < i :: !IsNodeOf(nodes[k], trace, id)
  {
    if nodes == [] then 0
    else
      var before := FirstNode(nodes[..|nodes| - 1], trace, id);
      if before < |nodes| - 1 then before
      else if IsNodeOf(nodes[|nodes| - 1], trace, id) then |nodes| - 1
      else |nodes|
  }

  /** 0, or one more than the place of the parent. */
  function ParentRef(nodes: seq<Pending>, k: nat): nat
    requires k < |nodes|
  {
    var i := FirstNode(nodes, nodes[k].trace, nodes[k].parent);
    if Refers(nodes[k].parent) && i < |nodes| then i + 1 else 0
  }

  predicate LocalIndex(nodes: seq<Pending>, n: nat, index: map<string, nat>)
    requires n <= |nodes|
  {
    && (forall key | key in index :: index[key] < n && nodes[index[key]].source != ""
          && key == SpanKey(nodes[index[key]].trace, nodes[index[key]].source))
    && (forall i | 0 <= i < n && nodes[i].source != "" ::
          var key := SpanKey(nodes[i].trace, nodes[i].source); key in index && index[key] <= i)
  }

  predicate CleanNodes(nodes: seq<Pending>) {
    forall i | 0 <= i < |nodes| :: US !in nodes[i].trace
  }

  /** emplace keeps the first node of a key. */
  method IndexNodes(nodes: seq<Pending>) returns (index: map<string, nat>)
    ensures LocalIndex(nodes, |nodes|, index)
  {
    hide SpanKey;
    index := map[];
    for i := 0 to |nodes|
      invariant LocalIndex(nodes, i, index)
    {
      var key := SpanKey(nodes[i].trace, nodes[i].source);
      if nodes[i].source != "" && key !in index {
        index := index[key := i];
      }
    }
  }

  lemma IndexFinds(nodes: seq<Pending>, index: map<string, nat>, trace: string, id: string)
    requires LocalIndex(nodes, |nodes|, index) && CleanNodes(nodes) && US !in trace && id != ""
    ensures SpanKey(trace, id) in index <==> FirstNode(nodes, trace, id) < |nodes|
    ensures SpanKey(trace, id) in index ==> index[SpanKey(trace, id)] == FirstNode(nodes, trace, id)
  {
    hide SpanKey, FirstNode;
    var key, first := SpanKey(trace, id), FirstNode(nodes, trace, id);
    if key in index {
      var i := index[key];
      SpanKeyInjective(nodes[i].trace, nodes[i].source, trace, id);
      assert IsNodeOf(nodes[i], trace, id);
    }
    if first < |nodes| {
      assert IsNodeOf(nodes[first], trace, id);
      assert SpanKey(nodes[first].trace, nodes[first].source) in index;
    }
  }

  method ParentRefs(nodes: seq<Pending>) returns (refs: seq<nat>)
    requires CleanNodes(nodes)
    ensures |refs| == |nodes| && forall k | 0 <= k < |nodes| :: refs[k] == ParentRef(nodes, k)
  {
    hide SpanKey, FirstNode, LocalIndex;
    var index := IndexNodes(nodes);
    refs := [];
    for k := 0 to |nodes|
      invariant |refs| == k && forall i | 0 <= i < k :: refs[i] == ParentRef(nodes, i)
    {
      var ref := 0;
      if nodes[k].parent != "" && nodes[k].parent != "0" {
        IndexFinds(nodes, index, nodes[k].trace, nodes[k].parent);
        var key := SpanKey(nodes[k].trace, nodes[k].parent);
        if key in index {
          ref := index[key] + 1;
        }
      }
      refs := refs + [ref];
    }
  }

  predicate InInput(rows: seq<Row>, trace: string, id: string) {
    exists j | 0 <= j < |rows| :: rows[j].trace == trace && rows[j].id == id
  }

  /** The nodes are the groups of the rows, merged and in some order. */
  predicate NodesOf(rows: seq<Row>, pending: seq<Pending>, home: seq<nat>, nodes: seq<Pending>) {
    Grouped(rows, pending, home) && |home| == |rows| && multiset(nodes) == multiset(MergedNodes(pending))
  }

  lemma NodeHasAGroup(rows: seq<Row>, pending: seq<Pending>, home: seq<nat>, nodes: seq<Pending>, k: nat)
    returns (m: nat, i: nat)
    requires NodesOf(rows, pending, home, nodes) && k < |nodes|
    ensures m < |pending| && nodes[k] == MergedNode(pending[m])
    ensures i < |rows| && home[i] == m && Holds(rows, i, pending[m])
  {
    hide MergedNode, Sharing, Holds, SpansAt, HostAt;
    assert nodes[k] in multiset(nodes);
    assert nodes[k] in MergedNodes(pending);
    m :| 0 <= m < |pending| && MergedNodes(pending)[m] == nodes[k];
    i :| 0 <= i < |home| && home[i] == m;
  }

  lemma GroupHasANode(rows: seq<Row>, pending: seq<Pending>, home: seq<nat>, nodes: seq<Pending>, m: nat)
    returns (k: nat)
    requires NodesOf(rows, pending, home, nodes) && m < |pending|
    ensures k < |nodes| && nodes[k] == MergedNode(pending[m])
  {
    hide MergedNode, Grouped;
    assert MergedNodes(pending)[m] in multiset(nodes);
    k :| 0 <= k < |nodes| && nodes[k] == MergedNode(pending[m]);
  }

  lemma NodesAreClean(rows: seq<Row>, pending: seq<Pending>, home: seq<nat>, nodes: seq<Pending>)
    requires NodesOf(rows, pending, home, nodes) && CleanRows(rows)
    ensures CleanNodes(nodes)
  {
    hide MergedNode, Grouped, NodesOf;
    forall k | 0 <= k < |nodes| ensures US !in nodes[k].trace {
      var m, i := NodeHasAGroup(rows, pending, home, nodes, k);
      MergedKeeps(pending[m]);
      assert CleanRow(rows[i]);
    }
  }

  lemma MergedKeeps(p: Pending)
    ensures MergedNode(p) == p.(segments := MergedNode(p).segments)
  {
  }

  /** A node refers to a parent exactly when its parent span is in the input, and then to a node of that very span:
      a span that has children is in no group. It holds for any order of the nodes. */
  lemma ParentRefMeaning(rows: seq<Row>, pending: seq<Pending>, home: seq<nat>, nodes: seq<Pending>, k: nat)
    requires NodesOf(rows, pending, home, nodes) && k < |nodes|
    ensures ParentRef(nodes, k) != 0 <==> Refers(nodes[k].parent) && InInput(rows, nodes[k].trace, nodes[k].parent)
    ensures ParentRef(nodes, k) != 0 ==>
              && ParentRef(nodes, k) - 1 < |nodes|
              && var p := nodes[ParentRef(nodes, k) - 1];
                 !p.leaf && p.source == nodes[k].parent && p.trace == nodes[k].trace
  {
    hide MergedNode, Grouped, NodesOf, FirstNode, HasChildren;
    var trace, parent := nodes[k].trace, nodes[k].parent;
    var first := FirstNode(nodes, trace, parent);
    if first < |nodes| {
      var m, i := NodeHasAGroup(rows, pending, home, nodes, first);
      MergedKeeps(pending[m]);
      assert rows[i].trace == trace && rows[i].id == parent;
    }
    if Refers(parent) && InInput(rows, trace, parent) {
      var j :| 0 <= j < |rows| && rows[j].trace == trace && rows[j].id == parent;
      var at := ParentHasANode(rows, pending, home, nodes, k, j);
      assert IsNodeOf(nodes[at], trace, parent);
    }
  }

  lemma ParentHasANode(rows: seq<Row>, pending: seq<Pending>, home: seq<nat>, nodes: seq<Pending>, k: nat, j: nat)
    returns (at: nat)
    requires NodesOf(rows, pending, home, nodes) && k < |nodes| && j < |rows| && Refers(nodes[k].parent)
    requires rows[j].trace == nodes[k].trace && rows[j].id == nodes[k].parent
    ensures at < |nodes| && nodes[at].source == rows[j].id && nodes[at].trace == rows[j].trace
  {
    hide MergedNode, Filled, Sharing;
    var m, i := NodeHasAGroup(rows, pending, home, nodes, k);
    MergedKeeps(pending[m]);
    assert IsChildOf(rows[i], rows[j]);
    assert HasChildren(rows, j);
    assert Holds(rows, j, pending[home[j]]);
    at := GroupHasANode(rows, pending, home, nodes, home[j]);
    MergedKeeps(pending[home[j]]);
  }

  // ---- the whole trace ----

  /** A node as the page gets it. */
  datatype TraceNode = TraceNode(parentRef: nat, leaf: bool, pixels: seq<Segment>)

  function Spans(rows: seq<Row>): seq<Span> {
    seq(|rows|, i requires 0 <= i < |rows| => rows[i].span)
  }

  function PixelsOf(t: Timeline, p: Pending): seq<Segment> {
    if p.leaf then Compacted(ProjectedAll(t, p.segments)) else ProjectedAll(t, p.segments)
  }

  method ProjectNode(t: Timeline, p: Pending) returns (pixels: seq<Segment>)
    ensures pixels == PixelsOf(t, p)
  {
    if p.leaf {
      pixels := ProjectSpans(t, p.segments);
    } else {
      pixels := ProjectedAll(t, p.segments);
    }
  }

  lemma SingleSegment(rows: seq<Row>, pending: seq<Pending>, home: seq<nat>, k: nat)
    requires Grouped(rows, pending, home) && |home| == |rows| && k < |pending| && !pending[k].leaf
    ensures |pending[k].segments| == 1
  {
    hide Holds, HostAt, SpansAt;
    var i :| 0 <= i < |home| && home[i] == k;
    forall j | 0 <= j < |home| && j != i ensures home[j] != k {
      assert Share(rows, Min(i, j), Max(i, j)) <==> home[Min(i, j)] == home[Max(i, j)];
      assert Holds(rows, i, pending[k]);
      LeafOfHolds(rows, i, pending[k]);
    }
    assert rows[..|home|] == rows;
    OneAtHome(rows, home, k, i);
  }

  lemma LeafOfHolds(rows: seq<Row>, i: nat, p: Pending)
    requires i < |rows| && Holds(rows, i, p)
    ensures p.leaf == !HasChildren(rows, i)
  {
  }

  lemma {:induction false} OneAtHome(rows: seq<Row>, home: seq<nat>, k: nat, i: nat)
    requires |rows| == |home| && i < |home| && home[i] == k && forall j | 0 <= j < |home| && j != i :: home[j] != k
    ensures SpansAt(rows, home, k) == [rows[i].span]
  {
    var last := |rows| - 1;
    if i < last {
      OneAtHome(rows[..last], home[..last], k, i);
    } else {
      NobodyAtHome(rows[..last], home[..last], k);
    }
  }

  // ---- how a row is drawn ----

  predicate WellFormed(rows: seq<Row>) {
    forall i | 0 <= i < |rows| :: rows[i].span.start <= rows[i].span.finish
  }

  /** The pixels of a node that holds row i: some, each on the timeline of 3840 pixels; when the spans are well formed,
      every instant of the row is in one of them; and a row with children has one segment of its own, from the pixel of
      its start to the one of its finish, at least one. */
  predicate OnThePage(g: Segment) {
    g.first < g.end <= 3840
  }

  ghost predicate Draws(rows: seq<Row>, t: Timeline, leaf: bool, pixels: seq<Segment>, i: nat)
    requires i < |rows| && t.duration > 0
  {
    && leaf == !HasChildren(rows, i)
    && pixels != [] && (forall k | 0 <= k < |pixels| :: OnThePage(pixels[k]))
    && (WellFormed(rows) ==>
          && (forall x: nat | rows[i].span.start <= x < rows[i].span.finish :: CoversAny(pixels, Lo(t, x)))
          && (!leaf ==> pixels == [OwnSegment(t, rows[i].span)]))
  }

  function OwnSegment(t: Timeline, s: Span): Segment
    requires t.duration > 0
  {
    Segment(Lo(t, s.start), Max(Hi(t, s.finish), Lo(t, s.start) + 1))
  }

  lemma {:induction false} MergedIsNotEmpty(spans: seq<Span>)
    requires spans != []
    ensures Merged(spans) != []
  {
    MergedStep(spans);
  }

  lemma AtHomeIsInGroup(rows: seq<Row>, pending: seq<Pending>, home: seq<nat>, i: nat)
    requires Grouped(rows, pending, home) && |home| == |rows| && i < |rows|
    ensures home[i] < |pending| && pending[home[i]].leaf == !HasChildren(rows, i)
    ensures rows[i].span in pending[home[i]].segments
  {
    hide HostAt, HasChildren, Sharing;
    assert rows[..|home|] == rows;
    assert Holds(rows, i, pending[home[i]]);
    SpansAtMembers(rows, home, home[i]);
    assert SomeoneAt(rows, home, home[i], rows[i].span);
  }

  lemma LeafIsDrawn(rows: seq<Row>, pending: seq<Pending>, home: seq<nat>, i: nat)
    requires Grouped(rows, pending, home) && |home| == |rows| && i < |rows| && !HasChildren(rows, i)
    ensures home[i] < |pending|
    ensures var t := TimelineOf(Spans(rows));
            Draws(rows, t, true, PixelsOf(t, MergedNode(pending[home[i]])), i)
  {
    hide Merged, SortedOf, Compacted, Projected, Lo, Sharing, HostAt, SpansAt, TimelineOf, CoversAny, HasChildren, Lost,
      AtHome, Filled;
    AtHomeIsInGroup(rows, pending, home, i);
    var t, spans := TimelineOf(Spans(rows)), pending[home[i]].segments;
    var sorted := SortedOf(spans);
    SortedOfIsSorted(spans);
    assert rows[i].span in multiset(sorted);
    MergedIsNotEmpty(sorted);
    SomeAreDrawn(t, Merged(sorted));
    PixelsAreSeparated(t, sorted);
    if WellFormed(rows) {
      GroupPixels(rows, pending, home, home[i], 0);
    }
  }

  lemma SomeAreDrawn(t: Timeline, spans: seq<Span>)
    requires spans != []
    ensures Compacted(ProjectedAll(t, spans)) != []
  {
    hide Projected;
  }

  lemma ParentIsDrawn(rows: seq<Row>, pending: seq<Pending>, home: seq<nat>, i: nat)
    requires Grouped(rows, pending, home) && |home| == |rows| && i < |rows| && HasChildren(rows, i)
    ensures home[i] < |pending|
    ensures var t := TimelineOf(Spans(rows));
            Draws(rows, t, false, PixelsOf(t, MergedNode(pending[home[i]])), i)
  {
    hide Projected, Lo, Hi, Sharing, HostAt, SpansAt, TimelineOf, HasChildren, Merged, SortedOf, NoWrap, AtHome, Filled;
    AtHomeIsInGroup(rows, pending, home, i);
    var t, p, s := TimelineOf(Spans(rows)), pending[home[i]], rows[i].span;
    SingleSegment(rows, pending, home, home[i]);
    FewSorted(p);
    assert p.segments == [s];
    assert PixelsOf(t, MergedNode(p)) == [Projected(t, s)];
    ProjectedInRange(t, s);
    if WellFormed(rows) {
      assert Spans(rows)[i] == s;
      WellFormedFit(Spans(rows), [s]);
      ProjectedIs(t, s);
      forall x: nat | s.start <= x < s.finish ensures CoversAny([OwnSegment(t, s)], Lo(t, x)) {
        InstantInRun(t, s, s, x);
        assert Covers([OwnSegment(t, s)][0], Lo(t, x));
      }
    }
  }

  /** Some node of the trace holds the row and draws it. */
  ghost predicate RowIsDrawn(rows: seq<Row>, t: Timeline, pending: seq<Pending>, home: seq<nat>, nodes: seq<Pending>,
                             out: seq<TraceNode>, i: nat)
    requires |out| == |nodes| && |home| == |rows| && i < |rows| && t.duration > 0
  {
    exists k | 0 <= k < |out| ::
      && home[i] < |pending| && nodes[k] == MergedNode(pending[home[i]])
      && Draws(rows, t, out[k].leaf, out[k].pixels, i)
  }

  lemma EveryRowIsDrawn(rows: seq<Row>, pending: seq<Pending>, home: seq<nat>, nodes: seq<Pending>, t: Timeline,
                        out: seq<TraceNode>, i: nat)
    requires NodesOf(rows, pending, home, nodes) && t == TimelineOf(Spans(rows)) && |out| == |nodes| && i < |rows|
    requires forall k | 0 <= k < |nodes| ::
               out[k] == TraceNode(ParentRef(nodes, k), nodes[k].leaf, PixelsOf(t, nodes[k]))
    ensures RowIsDrawn(rows, t, pending, home, nodes, out, i)
  {
    hide Grouped, PixelsOf, ParentRef, Draws, TimelineOf, HasChildren, MergedNode;
    if HasChildren(rows, i) {
      ParentIsDrawn(rows, pending, home, i);
    } else {
      LeafIsDrawn(rows, pending, home, i);
    }
    AtHomeIsInGroup(rows, pending, home, i);
    MergedKeeps(pending[home[i]]);
    var k := GroupHasANode(rows, pending, home, nodes, home[i]);
  }

  /** The trace: nodes for the groups of the rows, in order, with their parents and their pixels. */
  method BuildTrace(rows: seq<Row>)
    returns (out: seq<TraceNode>, t: Timeline, ghost pending: seq<Pending>, ghost home: seq<nat>,
             ghost nodes: seq<Pending>)
    requires CleanRows(rows)
    ensures NodesOf(rows, pending, home, nodes) && Arranged(nodes) && t == TimelineOf(Spans(rows))
    ensures |out| == |nodes|
    ensures forall k | 0 <= k < |nodes| ::
              out[k] == TraceNode(ParentRef(nodes, k), nodes[k].leaf, PixelsOf(t, nodes[k]))
    ensures forall i | 0 <= i < |rows| :: RowIsDrawn(rows, t, pending, home, nodes, out, i)
  {
    hide RowIsDrawn, Grouped, MergedNodes, Arranged, PixelsOf, ParentRef, CleanRows, CleanNodes;
    t := MakeTimeline(Spans(rows));
    var groups;
    groups, home := GroupRows(rows);
    pending := groups;
    forall k | 0 <= k < |groups| && !groups[k].leaf ensures |groups[k].segments| == 1 {
      SingleSegment(rows, groups, home, k);
    }
    var merged := MergeNodes(groups);
    var sorted := SortNodes(merged);
    nodes := sorted;
    NodesAreClean(rows, pending, home, nodes);
    var refs := ParentRefs(sorted);
    out := [];
    for k := 0 to |sorted|
      invariant |out| == k
      invariant forall i | 0 <= i < k :: out[i] == TraceNode(ParentRef(nodes, i), nodes[i].leaf, PixelsOf(t, nodes[i]))
    {
      var pixels := ProjectNode(t, sorted[k]);
      out := out + [TraceNode(refs[k], sorted[k].leaf, pixels)];
    }
    forall i | 0 <= i < |rows| ensures RowIsDrawn(rows, t, pending, home, nodes, out, i) {
      EveryRowIsDrawn(rows, pending, home, nodes, t, out, i);
    }
  }

  lemma {:induction false} SpansAtMembers(rows: seq<Row>, home: seq<nat>, k: nat)
    requires |rows| == |home|
    ensures forall s :: s in SpansAt(rows, home, k) <==> SomeoneAt(rows, home, k, s)
  {
    if rows != [] {
      var last := |rows| - 1;
      SpansAtMembers(rows[..last], home[..last], k);
      forall s ensures s in SpansAt(rows, home, k) <==> SomeoneAt(rows, home, k, s) {
        if SomeoneAt(rows[..last], home[..last], k, s) {
          var i :| 0 <= i < last && home[..last][i] == k && rows[..last][i].span == s;
          assert home[i] == k && rows[i].span == s;
        }
        if SomeoneAt(rows, home, k, s) {
          var i :| 0 <= i < |rows| && home[i] == k && rows[i].span == s;
          assert i < last ==> home[..last][i] == k && rows[..last][i].span == s;
        }
      }
    }
  }

  predicate SomeoneAt(rows: seq<Row>, home: seq<nat>, k: nat, s: Span)
    requires |rows| == |home|
  {
    exists i | 0 <= i < |rows| :: home[i] == k && rows[i].span == s
  }

  /** The pixels of a leaf group, from the rows of the input: exactly the pixels of its spans without the lost ones,
      apart and in order; and every instant of each of its spans is drawn. */
  lemma GroupPixels(rows: seq<Row>, pending: seq<Pending>, home: seq<nat>, k: nat, p: nat)
    requires Grouped(rows, pending, home) && |home| == |rows| && k < |pending| && pending[k].leaf
    requires forall i | 0 <= i < |rows| :: rows[i].span.start <= rows[i].span.finish
    ensures var t, spans := TimelineOf(Spans(rows)), pending[k].segments;
            var drawn := PixelsOf(t, MergedNode(pending[k]));
            && Separated(drawn)
            && (CoversAny(drawn, p) <==>
                  && (exists i | 0 <= i < |rows| :: home[i] == k && Covers(Projected(t, rows[i].span), p))
                  && !Lost(t, spans, p))
            && (forall i, x: nat | 0 <= i < |rows| && home[i] == k && rows[i].span.start <= x < rows[i].span.finish ::
                  CoversAny(drawn, Lo(t, x)))
  {
    hide Merged, SortedOf, Compacted, Projected, Lost, Lo, AtHome, Sharing, HostAt, SpansAt, SortedSpans, NoWrap,
      TimelineOf, CoversAny;
    var t, spans := TimelineOf(Spans(rows)), pending[k].segments;
    var sorted := SortedOf(spans);
    SortedOfIsSorted(spans);
    assert rows[..|home|] == rows;
    SpansAtMembers(rows, home, k);
    forall s | s in spans ensures s in Spans(rows) && s.start <= s.finish {
      var i :| 0 <= i < |rows| && home[i] == k && rows[i].span == s;
      assert Spans(rows)[i] == s;
    }
    WellFormedFit(Spans(rows), spans);
    SortingKeepsTheUnion(t, spans, sorted, p);
    PixelsAreTheUnion(t, sorted, p);
    PixelsAreSeparated(t, sorted);
    SameLost(t, spans, sorted, p);
    UnionOfRows(t, rows, home, k, spans, p);
    forall i, x: nat | 0 <= i < |rows| && home[i] == k && rows[i].span.start <= x < rows[i].span.finish
      ensures CoversAny(Pixels(t, sorted), Lo(t, x))
    {
      assert SomeoneAt(rows, home, k, rows[i].span);
      assert rows[i].span in multiset(spans);
      InstantsAreCovered(t, sorted, rows[i].span, x);
    }
  }

  lemma SameLost(t: Timeline, spans: seq<Span>, sorted: seq<Span>, p: nat)
    requires t.duration > 0 && multiset(spans) == multiset(sorted)
    ensures Lost(t, spans, p) == Lost(t, sorted, p)
  {
    forall s ensures s in spans <==> s in sorted {
      assert s in multiset(spans) <==> s in multiset(sorted);
    }
    forall c: nat ensures LostAt(t, spans, p, c) == LostAt(t, sorted, p, c) {
      SameLostAt(t, spans, sorted, p, c);
    }
  }

  lemma SameLostAt(t: Timeline, spans: seq<Span>, sorted: seq<Span>, p: nat, c: nat)
    requires t.duration > 0 && forall s :: s in spans <==> s in sorted
    ensures LostAt(t, spans, p, c) == LostAt(t, sorted, p, c)
  {
    hide Lo, Hi;
  }

  lemma UnionOfRows(t: Timeline, rows: seq<Row>, home: seq<nat>, k: nat, spans: seq<Span>, p: nat)
    requires |rows| == |home| && forall s :: s in spans <==> SomeoneAt(rows, home, k, s)
    ensures CoversAny(ProjectedAll(t, spans), p) <==>
              exists i | 0 <= i < |rows| :: home[i] == k && Covers(Projected(t, rows[i].span), p)
  {
    hide Projected;
    var all := ProjectedAll(t, spans);
    if CoversAny(all, p) {
      var j :| 0 <= j < |all| && Covers(all[j], p);
      assert spans[j] in spans;
      var i :| 0 <= i < |rows| && home[i] == k && rows[i].span == spans[j];
    }
    if exists i | 0 <= i < |rows| :: home[i] == k && Covers(Projected(t, rows[i].span), p) {
      var i :| 0 <= i < |rows| && home[i] == k && Covers(Projected(t, rows[i].span), p);
      assert SomeoneAt(rows, home, k, rows[i].span);
      var j :| 0 <= j < |spans| && spans[j] == rows[i].span;
      assert Covers(all[j], p);
    }
  }
}
