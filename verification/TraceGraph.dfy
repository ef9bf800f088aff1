/** The nodes of a trace (build_trace_json, src/api_analysis.cpp, without the processor overlay): leaf spans of one
    parent and operation share a node, and a node refers to the node of its parent. */
module TraceGraph {
  import opened Common
  import opened OptionsOrder
  import opened TracePixels

  const US: char := '\U{1f}'

  datatype Row = Row(trace: string, id: string, parent: string, name: string, host: string, span: Span)
  datatype Pending = Pending(host: string, trace: string, parent: string, operation: string, source: string, leaf: bool,
                             segments: seq<Span>)

  /** The ids hold no unit separator. */
  predicate CleanRow(r: Row) {
    US !in r.trace && US !in r.id && US !in r.parent
  }

  predicate CleanRows(rows: seq<Row>) {
    forall i | 0 <= i < |rows| :: CleanRow(rows[i])
  }

  /** A parent id that names a span. */
  predicate Refers(parent: string) {
    parent != "" && parent != "0"
  }

  // ---- the name of an operation ----

  predicate Digit(c: char) {
    '0' <= c <= '9'
  }

  /** The number of an instance: an underscore and at least one decimal digit. */
  predicate InstanceNumber(text: string) {
    |text| >= 2 && text[0] == '_' && forall c | c in text[1..] :: c in "0123456789"
  }

  function DigitsStart(value: string, end: nat): (at: nat)
    requires end <= |value|
    ensures at <= end
  {
    if end > 0 && Digit(value[end - 1]) then DigitsStart(value, end - 1) else end
  }

  /** The name without the numbers of its instances: every "_123" at the end is cut. */
  function InstanceEnd(value: string, end: nat): (at: nat)
    requires end <= |value|
    ensures at <= end
  {
    var digits := DigitsStart(value, end);
    if end == 0 || digits == end || digits == 0 || value[digits - 1] != '_' then end
    else InstanceEnd(value, digits - 1)
  }

  function InstanceName(value: string): string {
    value[..InstanceEnd(value, |value|)]
  }

  function AllTexts(texts: seq<string>): string {
    if texts == [] then "" else AllTexts(texts[..|texts| - 1]) + texts[|texts| - 1]
  }

  predicate Numbers(texts: seq<string>) {
    forall i | 0 <= i < |texts| :: InstanceNumber(texts[i])
  }

  predicate EndsInNumber(text: string) {
    exists k | 0 <= k < |text| :: InstanceNumber(text[k..])
  }

  /** The name is the value without the instance numbers at its end, and it has no such number at its own end. */
  ghost predicate IsInstanceName(value: string, name: string) {
    !EndsInNumber(name) && exists numbers :: Numbers(numbers) && value == name + AllTexts(numbers)
  }

  lemma DigitMeaning(c: char)
    ensures Digit(c) <==> c in "0123456789"
  {
    assert Digit(c) ==> "0123456789"[c as int - '0' as int] == c;
  }

  lemma {:induction false} DigitsStartMeaning(value: string, end: nat)
    requires end <= |value|
    ensures var at := DigitsStart(value, end);
            && (forall i | at <= i < end :: Digit(value[i]))
            && (at > 0 ==> !Digit(value[at - 1]))
  {
    hide Digit;
    if end > 0 && Digit(value[end - 1]) {
      DigitsStartMeaning(value, end - 1);
    }
  }

  lemma NumberByDigits(text: string)
    ensures InstanceNumber(text) <==>
              |text| >= 2 && text[0] == '_' && forall i | 1 <= i < |text| :: Digit(text[i])
  {
    hide Digit;
    forall c ensures Digit(c) <==> c in "0123456789" {
      DigitMeaning(c);
    }
    assert |text| >= 2 ==> forall c :: c in text[1..] <==> exists i | 1 <= i < |text| :: text[i] == c;
  }

  /** A text ends in a number exactly when an underscore stands before the digits at its end. */
  lemma EndsWhere(value: string, end: nat, k: nat)
    requires end <= |value| && k < end
    ensures var at := DigitsStart(value, end);
            InstanceNumber(value[k..end]) <==> at < end && k == at - 1 && value[k] == '_'
  {
    var text := value[k..end];
    DigitsStartMeaning(value, end);
    NumberByDigits(text);
    DigitMeaning('_');
    hide InstanceNumber, Digit, DigitsStart;
    assert forall i | 0 <= i < |text| :: text[i] == value[k + i];
    assert forall i | k <= i < end :: value[i] == text[i - k];
  }

  lemma {:induction false} InstanceEndMeaning(value: string, end: nat) returns (numbers: seq<string>)
    requires end <= |value|
    ensures Numbers(numbers) && value[..end] == value[..InstanceEnd(value, end)] + AllTexts(numbers)
    ensures !EndsInNumber(value[..InstanceEnd(value, end)])
    decreases end
  {
    hide DigitsStart, InstanceNumber;
    var at := DigitsStart(value, end);
    forall k | 0 <= k < end
      ensures InstanceNumber(value[..end][k..]) <==> at < end && k == at - 1 && value[k] == '_'
    {
      EndsWhere(value, end, k);
      assert value[..end][k..] == value[k..end];
    }
    if end == 0 || at == end || at == 0 || value[at - 1] != '_' {
      numbers := [];
    } else {
      var before := InstanceEndMeaning(value, at - 1);
      numbers := before + [value[at - 1..end]];
      assert value[..end][at - 1..] == value[at - 1..end];
      assert numbers[..|before|] == before;
      assert value[..end] == value[..at - 1] + value[at - 1..end];
    }
  }

  lemma InstanceNameMeaning(value: string)
    ensures IsInstanceName(value, InstanceName(value))
  {
    hide InstanceEnd, EndsInNumber, Numbers;
    var numbers := InstanceEndMeaning(value, |value|);
    assert value[..|value|] == value;
  }

  method OperationName(value: string) returns (name: string)
    ensures name == InstanceName(value) && IsInstanceName(value, name)
  {
    hide IsInstanceName;
    InstanceNameMeaning(value);
    var end: nat, done := |value|, false;
    while end > 0 && !done
      invariant end <= |value|
      invariant InstanceEnd(value, |value|) == InstanceEnd(value, end)
      invariant done ==> InstanceEnd(value, end) == end
      decreases end, !done
    {
      var digits := end;
      while digits > 0 && Digit(value[digits - 1])
        invariant digits <= end
        invariant DigitsStart(value, end) == DigitsStart(value, digits)
      {
        digits := digits - 1;
      }
      if digits == end || digits == 0 || value[digits - 1] != '_' {
        done := true;
      } else {
        end := digits - 1;
      }
    }
    name := value[..end];
  }

  // ---- the keys ----

  function SpanKey(trace: string, id: string): string {
    trace + [US] + id
  }

  function GroupKey(trace: string, parent: string, operation: string): string {
    trace + [US] + (parent + [US] + operation)
  }

  lemma SpanKeyInjective(a: string, x: string, b: string, y: string)
    requires US !in a && US !in b
    ensures SpanKey(a, x) == SpanKey(b, y) <==> a == b && x == y
  {
    if SpanKey(a, x) == SpanKey(b, y) {
      SplitUnique(a, x, b, y, US);
    }
  }

  lemma GroupKeyInjective(a: string, x: string, o: string, b: string, y: string, q: string)
    requires US !in a && US !in b && US !in x && US !in y
    ensures GroupKey(a, x, o) == GroupKey(b, y, q) <==> a == b && x == y && o == q
  {
    if GroupKey(a, x, o) == GroupKey(b, y, q) {
      SplitUnique(a, x + [US] + o, b, y + [US] + q, US);
      SplitUnique(x, o, y, q, US);
    }
  }

  // ---- the grouping ----

  predicate IsChildOf(child: Row, parent: Row) {
    Refers(child.parent) && child.trace == parent.trace && child.parent == parent.id
  }

  predicate HasChildren(rows: seq<Row>, i: nat)
    requires i < |rows|
  {
    exists j | 0 <= j < |rows| :: IsChildOf(rows[j], rows[i])
  }

  method ParentKeys(rows: seq<Row>) returns (keys: set<string>)
    requires CleanRows(rows)
    ensures forall i | 0 <= i < |rows| :: SpanKey(rows[i].trace, rows[i].id) in keys <==> HasChildren(rows, i)
  {
    hide SpanKey;
    keys := {};
    for n := 0 to |rows|
      invariant forall key :: key in keys <==> KeyOfParent(rows[..n], key)
    {
      var r := rows[n];
      if r.parent != "" && r.parent != "0" {
        keys := keys + {SpanKey(r.trace, r.parent)};
      }
      assert rows[..n + 1] == rows[..n] + [r];
      forall key ensures key in keys <==> KeyOfParent(rows[..n + 1], key) {
        KeyOfParentAppend(rows[..n], r, key);
      }
    }
    assert rows[..|rows|] == rows;
    forall i | 0 <= i < |rows| ensures SpanKey(rows[i].trace, rows[i].id) in keys <==> HasChildren(rows, i) {
      ParentKeyIsChildren(rows, i);
    }
  }

  predicate KeyOfParent(rows: seq<Row>, key: string) {
    exists j | 0 <= j < |rows| :: Refers(rows[j].parent) && key == SpanKey(rows[j].trace, rows[j].parent)
  }

  lemma KeyOfParentAppend(rows: seq<Row>, r: Row, key: string)
    ensures KeyOfParent(rows + [r], key) <==>
              KeyOfParent(rows, key) || (Refers(r.parent) && key == SpanKey(r.trace, r.parent))
  {
    hide SpanKey;
    var all := rows + [r];
    assert all[|rows|] == r;
    if KeyOfParent(rows, key) {
      var j :| 0 <= j < |rows| && Refers(rows[j].parent) && key == SpanKey(rows[j].trace, rows[j].parent);
      assert all[j] == rows[j];
    }
  }

  lemma ParentKeyIsChildren(rows: seq<Row>, i: nat)
    requires CleanRows(rows) && i < |rows|
    ensures KeyOfParent(rows, SpanKey(rows[i].trace, rows[i].id)) <==> HasChildren(rows, i)
  {
    hide SpanKey;
    forall j | 0 <= j < |rows|
      ensures IsChildOf(rows[j], rows[i]) <==>
                Refers(rows[j].parent) && SpanKey(rows[i].trace, rows[i].id) == SpanKey(rows[j].trace, rows[j].parent)
    {
      assert CleanRow(rows[i]) && CleanRow(rows[j]);
      SpanKeyInjective(rows[i].trace, rows[i].id, rows[j].trace, rows[j].parent);
    }
  }

  /** The spans of the rows whose home is node k, in their order. */
  function SpansAt(rows: seq<Row>, home: seq<nat>, k: nat): seq<Span>
    requires |rows| == |home|
  {
    if rows == [] then []
    else
      var last := |rows| - 1;
      SpansAt(rows[..last], home[..last], k) + (if home[last] == k then [rows[last].span] else [])
  }

  /** The host of the rows of node k; empty as soon as two of them differ. */
  function HostAt(rows: seq<Row>, home: seq<nat>, k: nat): string
    requires |rows| == |home|
  {
    if rows == [] then ""
    else
      var last := |rows| - 1;
      var before := HostAt(rows[..last], home[..last], k);
      if home[last] != k then before
      else if k !in home[..last] then rows[last].host
      else if before != rows[last].host then ""
      else before
  }

  predicate Holds(rows: seq<Row>, i: nat, p: Pending)
    requires i < |rows|
  {
    var r := rows[i];
    && p.trace == r.trace && p.parent == r.parent && p.operation == InstanceName(r.name)
    && p.leaf == !HasChildren(rows, i)
    && p.source == if p.leaf then "" else r.id
  }

  /** Two spans share a node: the same one, or two leaves with one trace, parent and operation. */
  predicate Share(rows: seq<Row>, i: nat, j: nat)
    requires i < |rows| && j < |rows|
  {
    i == j || (!HasChildren(rows, i) && !HasChildren(rows, j) && rows[i].trace == rows[j].trace
               && rows[i].parent == rows[j].parent && InstanceName(rows[i].name) == InstanceName(rows[j].name))
  }

  predicate Sharing(rows: seq<Row>, home: seq<nat>)
    requires |home| <= |rows|
  {
    forall i, j | 0 <= i < j < |home| :: home[i] == home[j] <==> Share(rows, i, j)
  }

  predicate AtHome(rows: seq<Row>, pending: seq<Pending>, home: seq<nat>)
    requires |home| <= |rows|
  {
    forall i | 0 <= i < |home| :: home[i] < |pending| && Holds(rows, i, pending[home[i]])
  }

  predicate Filled(rows: seq<Row>, pending: seq<Pending>, home: seq<nat>)
    requires |home| <= |rows|
  {
    forall k | 0 <= k < |pending| ::
      && k in home
      && pending[k].segments == SpansAt(rows[..|home|], home, k)
      && pending[k].host == HostAt(rows[..|home|], home, k)
  }

  /** The nodes of the first rows: each row has one home, and each node is exactly the rows at home there. */
  predicate Grouped(rows: seq<Row>, pending: seq<Pending>, home: seq<nat>) {
    |home| <= |rows| && AtHome(rows, pending, home) && Sharing(rows, home) && Filled(rows, pending, home)
  }

  predicate Indexed(pending: seq<Pending>, groups: map<string, nat>) {
    && (forall key | key in groups :: groups[key] < |pending| && pending[groups[key]].leaf
          && key == GroupKey(pending[groups[key]].trace, pending[groups[key]].parent, pending[groups[key]].operation))
    && (forall k | 0 <= k < |pending| && pending[k].leaf ::
          var key := GroupKey(pending[k].trace, pending[k].parent, pending[k].operation);
          key in groups && groups[key] == k)
  }

  lemma OneMore(rows: seq<Row>, home: seq<nat>, h: nat, k: nat)
    requires |home| < |rows|
    ensures var n := |home|;
            && SpansAt(rows[..n + 1], home + [h], k) ==
               SpansAt(rows[..n], home, k) + (if h == k then [rows[n].span] else [])
            && HostAt(rows[..n + 1], home + [h], k) ==
                 (var before := HostAt(rows[..n], home, k);
                  if h != k then before else if k !in home then rows[n].host
                  else if before != rows[n].host then "" else before)
  {
    var n := |home|;
    assert rows[..n + 1][..n] == rows[..n] && (home + [h])[..n] == home;
  }

  lemma {:induction false} NobodyAtHome(rows: seq<Row>, home: seq<nat>, k: nat)
    requires |rows| == |home| && k !in home
    ensures SpansAt(rows, home, k) == [] && HostAt(rows, home, k) == ""
  {
    if rows != [] {
      var last := |rows| - 1;
      assert home[last] in home && forall h | h in home[..last] :: h in home;
      NobodyAtHome(rows[..last], home[..last], k);
    }
  }

  /** A new node for the next row. */
  lemma NewHome(rows: seq<Row>, pending: seq<Pending>, home: seq<nat>, p: Pending)
    requires Grouped(rows, pending, home) && |home| < |rows|
    requires Holds(rows, |home|, p) && p.segments == [rows[|home|].span] && p.host == rows[|home|].host
    requires forall i | 0 <= i < |home| :: !Share(rows, i, |home|)
    ensures Grouped(rows, pending + [p], home + [|pending|])
  {
    hide Holds, Share, SpansAt, HostAt;
    var n, k := |home|, |pending|;
    var after, homes := pending + [p], home + [k];
    assert k !in home by {
      assert forall i | 0 <= i < n :: home[i] < k;
    }
    NobodyAtHome(rows[..n], home, k);
    forall m | 0 <= m < |after|
      ensures m in homes && after[m].segments == SpansAt(rows[..n + 1], homes, m)
              && after[m].host == HostAt(rows[..n + 1], homes, m)
    {
      OneMore(rows, home, k, m);
      assert homes[n] == k;
      if m < k {
        assert m in home;
      }
    }
    assert AtHome(rows, after, homes);
    assert Sharing(rows, homes);
  }

  function Joined(p: Pending, r: Row): Pending {
    p.(segments := p.segments + [r.span], host := if p.host != r.host then "" else p.host)
  }

  lemma JoinedHolds(rows: seq<Row>, i: nat, p: Pending, r: Row)
    requires i < |rows|
    ensures Holds(rows, i, Joined(p, r)) == Holds(rows, i, p)
  {
  }

  lemma JoinedAtHome(rows: seq<Row>, pending: seq<Pending>, home: seq<nat>, k: nat)
    requires |home| < |rows| && AtHome(rows, pending, home) && k < |pending| && Holds(rows, |home|, pending[k])
    ensures AtHome(rows, pending[k := Joined(pending[k], rows[|home|])], home + [k])
  {
    hide Holds, Joined;
    var n := |home|;
    var after, homes := pending[k := Joined(pending[k], rows[n])], home + [k];
    forall i | 0 <= i < |homes| ensures homes[i] < |after| && Holds(rows, i, after[homes[i]]) {
      JoinedHolds(rows, i, pending[k], rows[n]);
    }
  }

  lemma JoinedFilled(rows: seq<Row>, pending: seq<Pending>, home: seq<nat>, k: nat)
    requires |home| < |rows| && Filled(rows, pending, home) && k < |pending|
    ensures Filled(rows, pending[k := Joined(pending[k], rows[|home|])], home + [k])
  {
    hide SpansAt, HostAt;
    var n := |home|;
    var after, homes := pending[k := Joined(pending[k], rows[n])], home + [k];
    forall m | 0 <= m < |after|
      ensures m in homes && after[m].segments == SpansAt(rows[..n + 1], homes, m)
              && after[m].host == HostAt(rows[..n + 1], homes, m)
    {
      OneMore(rows, home, k, m);
      assert m in home;
    }
  }

  /** The next row joins the node of its group. */
  lemma SameHome(rows: seq<Row>, pending: seq<Pending>, home: seq<nat>, k: nat)
    requires Grouped(rows, pending, home) && |home| < |rows| && k < |pending|
    requires Holds(rows, |home|, pending[k])
    requires forall i | 0 <= i < |home| :: home[i] == k <==> Share(rows, i, |home|)
    ensures Grouped(rows, pending[k := Joined(pending[k], rows[|home|])], home + [k])
  {
    hide Share, AtHome, Filled, Holds, Joined;
    JoinedAtHome(rows, pending, home, k);
    JoinedFilled(rows, pending, home, k);
    assert Sharing(rows, home + [k]);
  }

  /** The node of a leaf with the same key is the node of its group. */
  lemma GroupHome(rows: seq<Row>, pending: seq<Pending>, home: seq<nat>, groups: map<string, nat>, i: nat, n: nat)
    requires CleanRows(rows) && Grouped(rows, pending, home) && Indexed(pending, groups)
    requires i < |home| && n < |rows| && n != i && !HasChildren(rows, n)
    ensures var key := GroupKey(rows[n].trace, rows[n].parent, InstanceName(rows[n].name));
            Share(rows, i, n) <==> key in groups && home[i] == groups[key]
  {
    hide InstanceName, Filled, Sharing, GroupKey, HasChildren;
    var p, r := pending[home[i]], rows[n];
    assert Holds(rows, i, p) && CleanRow(rows[i]) && CleanRow(r);
    GroupKeyInjective(r.trace, r.parent, InstanceName(r.name), p.trace, p.parent, p.operation);
  }

  lemma LeafHolds(rows: seq<Row>, pending: seq<Pending>, home: seq<nat>, groups: map<string, nat>, n: nat, key: string)
    requires CleanRows(rows) && Grouped(rows, pending, home) && Indexed(pending, groups)
    requires n < |rows| && !HasChildren(rows, n) && key in groups
    requires key == GroupKey(rows[n].trace, rows[n].parent, InstanceName(rows[n].name))
    ensures groups[key] < |pending| && Holds(rows, n, pending[groups[key]])
  {
    hide InstanceName, Sharing, GroupKey, HasChildren, SpansAt, HostAt;
    var k := groups[key];
    var p, r := pending[k], rows[n];
    var i :| 0 <= i < |home| && home[i] == k;
    assert Holds(rows, i, p) && CleanRow(rows[i]) && CleanRow(r);
    GroupKeyInjective(r.trace, r.parent, InstanceName(r.name), p.trace, p.parent, p.operation);
  }

  lemma NothingGrouped(rows: seq<Row>)
    ensures Grouped(rows, [], []) && Indexed([], map[])
  {
  }

  lemma IndexedNew(pending: seq<Pending>, groups: map<string, nat>, p: Pending, key: string)
    requires Indexed(pending, groups) && key == GroupKey(p.trace, p.parent, p.operation)
    requires p.leaf ==> key !in groups
    ensures Indexed(pending + [p], if p.leaf then groups[key := |pending|] else groups)
  {
    hide GroupKey;
  }

  lemma IndexedSame(pending: seq<Pending>, groups: map<string, nat>, k: nat, r: Row)
    requires Indexed(pending, groups) && k < |pending|
    ensures Indexed(pending[k := Joined(pending[k], r)], groups)
  {
    hide GroupKey;
  }

  /** The nodes before the merge: a node for each span with children, and one for each group of leaves. */
  method GroupRows(rows: seq<Row>) returns (pending: seq<Pending>, home: seq<nat>)
    requires CleanRows(rows)
    ensures Grouped(rows, pending, home) && |home| == |rows|
  {
    hide Grouped, Indexed, Holds, HasChildren, Share, InstanceName, GroupKey, SpanKey;
    var parents := ParentKeys(rows);
    var groups: map<string, nat> := map[];
    pending, home := [], [];
    NothingGrouped(rows);
    for n := 0 to |rows|
      invariant |home| == n && Grouped(rows, pending, home) && Indexed(pending, groups)
    {
      pending, groups, home := GroupRow(rows, n, parents, pending, groups, home);
    }
  }

  method GroupRow(rows: seq<Row>, n: nat, parents: set<string>, pending: seq<Pending>, groups: map<string, nat>,
                  home: seq<nat>)
    returns (after: seq<Pending>, index: map<string, nat>, homes: seq<nat>)
    requires CleanRows(rows) && n < |rows| && |home| == n
    requires SpanKey(rows[n].trace, rows[n].id) in parents <==> HasChildren(rows, n)
    requires Grouped(rows, pending, home) && Indexed(pending, groups)
    ensures Grouped(rows, after, homes) && Indexed(after, index) && |homes| == n + 1
  {
    hide Grouped, HasChildren, InstanceName, GroupKey, SpanKey, CleanRows, Indexed, Share;
    var r := rows[n];
    var operation := OperationName(r.name);
    var key := GroupKey(r.trace, r.parent, operation);
    if SpanKey(r.trace, r.id) in parents {
      var p := Pending(r.host, r.trace, r.parent, operation, r.id, false, [r.span]);
      forall i | 0 <= i < n ensures !Share(rows, i, n) {
        ParentSharesNothing(rows, i, n);
      }
      NewHome(rows, pending, home, p);
      IndexedNew(pending, groups, p, key);
      after, index, homes := pending + [p], groups, home + [|pending|];
    } else {
      forall i | 0 <= i < n ensures Share(rows, i, n) <==> key in groups && home[i] == groups[key] {
        GroupHome(rows, pending, home, groups, i, n);
      }
      if key in groups {
        var k := groups[key];
        LeafHolds(rows, pending, home, groups, n, key);
        SameHome(rows, pending, home, k);
        IndexedSame(pending, groups, k, r);
        after, index, homes := pending[k := Joined(pending[k], r)], groups, home + [k];
      } else {
        var p := Pending(r.host, r.trace, r.parent, operation, "", true, [r.span]);
        NewHome(rows, pending, home, p);
        IndexedNew(pending, groups, p, key);
        after, index, homes := pending + [p], groups[key := |pending|], home + [|pending|];
      }
    }
  }

  lemma ParentSharesNothing(rows: seq<Row>, i: nat, n: nat)
    requires i < n < |rows| && HasChildren(rows, n)
    ensures !Share(rows, i, n)
  {
  }
}
