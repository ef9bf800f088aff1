/** The ceilings of a grant (src/access_ceilings.hpp, src/access_ceilings.cpp): the lower of two sets of ceilings, the
    ceilings of a run, the ceilings that can be applied, and the meter that counts a run. 0 is no ceiling. */
module AccessCeilings {
  import opened Common
  import opened OptionsOrder
  import opened PdpModel

  const MAX64 := 0xFFFF_FFFF_FFFF_FFFF

  datatype Ceilings = Ceilings(maxRowsRead: nat, maxReadSize: nat, maxRows: nat, maxResultSize: nat, maxDuration: nat,
                               maxMemory: nat)

  const NO_CEILINGS := Ceilings(0, 0, 0, 0, 0, 0)

  // ---- the order ----

  /** What x lets through, y lets through. */
  predicate Tighter(x: nat, y: nat) {
    y == 0 || (x != 0 && x <= y)
  }

  predicate AllTighter(a: Ceilings, b: Ceilings) {
    && Tighter(a.maxRowsRead, b.maxRowsRead) && Tighter(a.maxReadSize, b.maxReadSize) && Tighter(a.maxRows, b.maxRows)
    && Tighter(a.maxResultSize, b.maxResultSize) && Tighter(a.maxDuration, b.maxDuration)
    && Tighter(a.maxMemory, b.maxMemory)
  }

  function Lower(x: nat, y: nat): nat {
    if x == 0 then y else if y == 0 then x else if x < y then x else y
  }

  function Lowest(a: Ceilings, b: Ceilings): Ceilings {
    Ceilings(Lower(a.maxRowsRead, b.maxRowsRead), Lower(a.maxReadSize, b.maxReadSize), Lower(a.maxRows, b.maxRows),
             Lower(a.maxResultSize, b.maxResultSize), Lower(a.maxDuration, b.maxDuration),
             Lower(a.maxMemory, b.maxMemory))
  }

  /** The order of the ceilings: one value at most is the greatest lower bound of two, and it is Lowest. */
  lemma LowestIsTheMeet(a: Ceilings, b: Ceilings, c: Ceilings)
    ensures AllTighter(c, Lowest(a, b)) <==> AllTighter(c, a) && AllTighter(c, b)
    ensures AllTighter(a, b) && AllTighter(b, a) ==> a == b
    ensures AllTighter(a, b) && AllTighter(b, c) ==> AllTighter(a, c)
    ensures AllTighter(a, NO_CEILINGS) && AllTighter(a, a) && Lowest(a, NO_CEILINGS) == a == Lowest(NO_CEILINGS, a)
  {
    LowerIsTheMeet(a.maxRowsRead, b.maxRowsRead, c.maxRowsRead);
    LowerIsTheMeet(a.maxReadSize, b.maxReadSize, c.maxReadSize);
    LowerIsTheMeet(a.maxRows, b.maxRows, c.maxRows);
    LowerIsTheMeet(a.maxResultSize, b.maxResultSize, c.maxResultSize);
    LowerIsTheMeet(a.maxDuration, b.maxDuration, c.maxDuration);
    LowerIsTheMeet(a.maxMemory, b.maxMemory, c.maxMemory);
  }

  lemma LowerIsTheMeet(x: nat, y: nat, z: nat)
    ensures Tighter(z, Lower(x, y)) <==> Tighter(z, x) && Tighter(z, y)
  {
  }

  // ---- the ceilings of a run ----

  datatype SqlClass = Read | Write | Unsure

  datatype RunCeilings = RunCeilings(base: Ceilings, read: Ceilings, write: Ceilings, hasRead: bool, hasWrite: bool)

  function Resolve(r: RunCeilings, sql: SqlClass): Ceilings {
    var run :=
      if r.hasRead && r.hasWrite then
        if sql.Read? then r.read else if sql.Write? then r.write else Lowest(r.read, r.write)
      else if r.hasWrite then r.write
      else if r.hasRead then r.read
      else NO_CEILINGS;
    Lowest(r.base, run)
  }

  /** The ceilings of a run never loosen the base; SQL of a known class keeps to the ceilings of its action, SQL of an
      unsure class to those of both; and nothing else tightens them. */
  lemma ResolveMeaning(r: RunCeilings, sql: SqlClass, c: Ceilings)
    ensures AllTighter(Resolve(r, sql), r.base)
    ensures r.hasRead && (!r.hasWrite || !sql.Write?) ==> AllTighter(Resolve(r, sql), r.read)
    ensures r.hasWrite && (!r.hasRead || !sql.Read?) ==> AllTighter(Resolve(r, sql), r.write)
    ensures AllTighter(c, Resolve(r, sql)) <==>
              && AllTighter(c, r.base)
              && (r.hasRead && (!r.hasWrite || !sql.Write?) ==> AllTighter(c, r.read))
              && (r.hasWrite && (!r.hasRead || !sql.Read?) ==> AllTighter(c, r.write))
  {
    hide Lowest, AllTighter;
    var run := if r.hasRead && r.hasWrite then Lowest(r.read, r.write) else NO_CEILINGS;
    var got := Resolve(r, sql);
    LowestIsTheMeet(got, got, got);
    forall d: Ceilings ensures AllTighter(d, got) <==>
              && AllTighter(d, r.base)
              && (r.hasRead && (!r.hasWrite || !sql.Write?) ==> AllTighter(d, r.read))
              && (r.hasWrite && (!r.hasRead || !sql.Read?) ==> AllTighter(d, r.write)) {
      ResolveBounds(r, sql, d);
    }
    assert AllTighter(got, got);
  }

  lemma ResolveBounds(r: RunCeilings, sql: SqlClass, c: Ceilings)
    ensures AllTighter(c, Resolve(r, sql)) <==>
              && AllTighter(c, r.base)
              && (r.hasRead && (!r.hasWrite || !sql.Write?) ==> AllTighter(c, r.read))
              && (r.hasWrite && (!r.hasRead || !sql.Read?) ==> AllTighter(c, r.write))
  {
    hide Lowest, AllTighter;
    var run :=
      if r.hasRead && r.hasWrite then
        if sql.Read? then r.read else if sql.Write? then r.write else Lowest(r.read, r.write)
      else if r.hasWrite then r.write
      else if r.hasRead then r.read
      else NO_CEILINGS;
    LowestIsTheMeet(r.base, run, c);
    LowestIsTheMeet(r.read, r.write, c);
    LowestIsTheMeet(c, c, c);
  }

  // ---- the ceilings of an answer ----

  function Get(c: Ceilings, name: string): nat {
    if name == "max_rows_read" then c.maxRowsRead
    else if name == "max_read_size" then c.maxReadSize
    else if name == "max_rows" then c.maxRows
    else if name == "max_result_size" then c.maxResultSize
    else if name == "max_duration" then c.maxDuration
    else if name == "max_memory" then c.maxMemory
    else 0
  }

  function Set(c: Ceilings, name: string, value: nat): Ceilings {
    if name == "max_rows_read" then c.(maxRowsRead := value)
    else if name == "max_read_size" then c.(maxReadSize := value)
    else if name == "max_rows" then c.(maxRows := value)
    else if name == "max_result_size" then c.(maxResultSize := value)
    else if name == "max_duration" then c.(maxDuration := value)
    else if name == "max_memory" then c.(maxMemory := value)
    else c
  }

  predicate Known(name: string) {
    name == "max_rows_read" || name == "max_read_size" || name == "max_rows" || name == "max_result_size"
    || name == "max_duration" || name == "max_memory"
  }

  lemma GetAfterSet(c: Ceilings, name: string, value: nat, other: string)
    ensures Get(Set(c, name, value), other) == if name == other && Known(name) then value else Get(c, other)
  {
  }

  method CeilingsOf(limits: seq<Limit>) returns (out: Ceilings)
    ensures out == ValuesOf(limits)
  {
    hide Get, Set, Known;
    out := NO_CEILINGS;
    NothingSet();
    for i := 0 to |limits|
      invariant out == ValuesOf(limits[..i])
    {
      assert limits[..i + 1][..i] == limits[..i];
      out := Set(out, limits[i].name, limits[i].value);
    }
    assert limits[..|limits|] == limits;
  }

  function ValuesOf(limits: seq<Limit>): Ceilings {
    if limits == [] then NO_CEILINGS
    else Set(ValuesOf(limits[..|limits| - 1]), limits[|limits| - 1].name, limits[|limits| - 1].value)
  }

  lemma NothingSet()
    ensures forall name :: Get(NO_CEILINGS, name) == 0
  {
  }

  /** The ceilings of an answer, whose limits have different names: each known limit, and no other. */
  lemma {:induction false} ValuesAreTheLimits(limits: seq<Limit>)
    requires forall i, j | 0 <= i < j < |limits| :: limits[i].name != limits[j].name
    ensures forall l | l in limits && Known(l.name) :: Get(ValuesOf(limits), l.name) == l.value
    ensures forall name | forall l | l in limits :: l.name != name :: Get(ValuesOf(limits), name) == 0
  {
    hide Get, Set, Known;
    NothingSet();
    if limits != [] {
      var last := |limits| - 1;
      var before := limits[..last];
      ValuesAreTheLimits(before);
      assert forall l | l in before :: l in limits;
      forall l | l in limits && Known(l.name) ensures Get(ValuesOf(limits), l.name) == l.value {
        GetAfterSet(ValuesOf(before), limits[last].name, limits[last].value, l.name);
        var i :| 0 <= i < |limits| && limits[i] == l;
        assert i < last ==> before[i] == l;
      }
      forall name | forall l | l in limits :: l.name != name ensures Get(ValuesOf(limits), name) == 0 {
        GetAfterSet(ValuesOf(before), limits[last].name, limits[last].value, name);
        assert limits[last] in limits;
      }
    }
  }

  // ---- the ceilings that can be applied ----

  /** The pages that are on. */
  datatype Features = Features(explorer: bool, system: bool, observability: bool)

  function ActionCeilings(action: string): set<string> {
    if action == "query.run.read" || action == "query.run.write" || action == "query.export" then
      {"max_rows_read", "max_read_size", "max_rows", "max_result_size", "max_duration", "max_memory"}
    else if action == "explorer.read" then {"max_rows", "max_rows_read", "max_duration", "max_memory"}
    else if action == "system.read" || action == "observability.read" then {"max_rows_read", "max_rows", "max_duration"}
    else {}
  }

  /** The ceilings that the document declares for an action: none while the action is not published. */
  function DeclaredCeilings(action: string, features: Features): set<string> {
    if (action == "explorer.read" && !features.explorer) || (action == "system.read" && !features.system)
       || (action == "observability.read" && !features.observability)
    then {}
    else ActionCeilings(action)
  }

  predicate CanApply(l: Limit, action: string, features: Features) {
    l.name in DeclaredCeilings(action, features) && l.value >= 1
  }

  /** The actions that are published with a ceiling, and whose page is on. */
  predicate Declares(action: string, features: Features, name: string) {
    var runs := ["query.run.read", "query.run.write", "query.export"];
    var pages := (if features.explorer then ["explorer.read"] else [])
                 + (if features.system then ["system.read"] else [])
                 + (if features.observability then ["observability.read"] else []);
    match name
    case "max_rows" | "max_rows_read" | "max_duration" => action in runs + pages
    case "max_memory" => action in runs || (action == "explorer.read" && features.explorer)
    case "max_read_size" | "max_result_size" => action in runs
    case _ => false
  }

  /** A limit is applied exactly when it is at least 1 and its ceiling is published for the action. */
  lemma CanApplyMeaning(l: Limit, action: string, features: Features)
    ensures CanApply(l, action, features) <==> 1 <= l.value && Declares(action, features, l.name)
  {
  }

  /** No limit that is refused has a lower name. */
  predicate LeastRefused(limits: seq<Limit>, refused: string, action: string, features: Features, canApply: bool) {
    forall l | l in limits && (!canApply || !CanApply(l, action, features)) :: !LexLess(l.name, refused)
  }

  lemma FirstIsLeast(limits: seq<Limit>, i: nat, action: string, features: Features, canApply: bool)
    requires i < |limits| && forall k | 0 <= k < i :: canApply && CanApply(limits[k], action, features)
    ensures InNameOrder(limits) ==> LeastRefused(limits, limits[i].name, action, features, canApply)
  {
    hide LexLess, CanApply;
    forall k | i <= k < |limits| && InNameOrder(limits) ensures !LexLess(limits[k].name, limits[i].name) {
      LexIrreflexive(limits[i].name);
      if LexLess(limits[k].name, limits[i].name) && i < k {
        LexTransitive(limits[i].name, limits[k].name, limits[i].name);
      }
    }
  }

  /** The limits of an answer are in the order of their names (std::map), so the first one that is refused is the one
      with the lowest name. */
  method Enforceable(limits: seq<Limit>, action: string, features: Features) returns (ok: bool, refused: string)
    ensures ok <==> forall l | l in limits :: CanApply(l, action, features)
    ensures !ok ==> exists i | 0 <= i < |limits| ::
              && limits[i].name == refused && !CanApply(limits[i], action, features)
              && forall k | 0 <= k < i :: CanApply(limits[k], action, features)
    ensures !ok && InNameOrder(limits) ==> LeastRefused(limits, refused, action, features, true)
  {
    ok, refused := true, "";
    var i := 0;
    while i < |limits| && ok
      invariant i <= |limits|
      invariant ok ==> forall k | 0 <= k < i :: CanApply(limits[k], action, features)
      invariant !ok ==> i < |limits| && limits[i].name == refused && !CanApply(limits[i], action, features)
                        && forall k | 0 <= k < i :: CanApply(limits[k], action, features)
      decreases |limits| - i, ok
    {
      if CanApply(limits[i], action, features) {
        i := i + 1;
      } else {
        ok, refused := false, limits[i].name;
      }
    }
    if !ok {
      FirstIsLeast(limits, i, action, features, true);
    }
  }

  /** A true decision about a node, with a ceiling that is not applied. */
  predicate Unenforceable(q: Question, d: Decision, features: Features, canApply: bool) {
    d.allowed && d.limits != [] && q.how != Subtree
    && (!canApply || exists l | l in d.limits :: !CanApply(l, q.action, features))
  }

  /** What becomes of a decision: a denial that names the ceiling, or the decision itself. */
  predicate Enforced(q: Question, d: Decision, features: Features, canApply: bool, out: Decision) {
    if Unenforceable(q, d, features, canApply) then
      && out == d.(allowed := false, ceilingRefused := out.ceilingRefused, reason := NoReason, limits := [],
                   usageUnits := None)
      && (exists l | l in d.limits :: l.name == out.ceilingRefused && (canApply ==> !CanApply(l, q.action, features)))
      && (InNameOrder(d.limits) ==> LeastRefused(d.limits, out.ceilingRefused, q.action, features, canApply))
    else out == d
  }

  method EnforceOne(q: Question, d: Decision, features: Features, canApply: bool) returns (out: Decision)
    ensures Enforced(q, d, features, canApply, out)
  {
    hide CanApply, LeastRefused, InNameOrder;
    out := d;
    if d.allowed && d.limits != [] && q.how != Subtree {
      var enforceable, refused := false, "";
      if canApply {
        enforceable, refused := Enforceable(d.limits, q.action, features);
      } else {
        refused := d.limits[0].name;
        assert d.limits[0] in d.limits;
        FirstIsLeast(d.limits, 0, q.action, features, false);
      }
      if !enforceable {
        out := d.(allowed := false, ceilingRefused := refused, reason := NoReason, limits := [], usageUnits := None);
      }
    }
  }

  /** The decisions are changed in place; a decision without its question stays. */
  method EnforceCeilings(questions: seq<Question>, decisions: array<Decision>, features: Features, canApply: bool)
    modifies decisions
    ensures forall i | 0 <= i < decisions.Length && i < |questions| ::
              Enforced(questions[i], old(decisions[i]), features, canApply, decisions[i])
    ensures forall i | |questions| <= i < decisions.Length :: decisions[i] == old(decisions[i])
  {
    hide Enforced;
    var i := 0;
    while i < |questions| && i < decisions.Length
      invariant i <= |questions| && i <= decisions.Length
      invariant forall k | 0 <= k < i :: Enforced(questions[k], old(decisions[k]), features, canApply, decisions[k])
      invariant forall k | i <= k < decisions.Length :: decisions[k] == old(decisions[k])
    {
      var out := EnforceOne(questions[i], decisions[i], features, canApply);
      decisions[i] := out;
      i := i + 1;
    }
  }

  /** After it, every true decision about a node carries only ceilings that are applied; a decision is never made true;
      one that was changed is a plain refusal; and doing it again changes nothing. */
  lemma EnforcedMeaning(q: Question, d: Decision, features: Features, canApply: bool, out: Decision)
    requires Enforced(q, d, features, canApply, out)
    ensures out.allowed && q.how == OnNode ==>
              && d == out
              && (forall l | l in out.limits :: canApply && CanApply(l, q.action, features))
    ensures out.allowed ==> d.allowed
    ensures out == d <==>
              || !d.allowed || d.limits == [] || q.how == Subtree
              || (canApply && forall l | l in d.limits :: 1 <= l.value && Declares(q.action, features, l.name))
    ensures out != d ==>
              d.allowed && (d.failed || OutcomeOf(out) == Denied) && out.limits == [] && out.usageUnits == None
    ensures Enforced(q, out, features, canApply, out)
  {
    hide CanApply, Declares;
    forall l | l in d.limits ensures CanApply(l, q.action, features) <==>
        1 <= l.value && Declares(q.action, features, l.name)
    {
      CanApplyMeaning(l, q.action, features);
    }
  }

  // ---- the meter ----

  datatype Breach = Breach(ceiling: string, code: string, value: nat)
  datatype Packet = Progress(rows: nat, bytes: nat) | Received(rows: nat, bytes: nat)

  /** The unbounded sums. */
  function Rows(packets: seq<Packet>, progress: bool): nat {
    if packets == [] then 0
    else
      var p := packets[|packets| - 1];
      Rows(packets[..|packets| - 1], progress) + (if p.Progress? == progress then p.rows else 0)
  }

  function Bytes(packets: seq<Packet>, progress: bool): nat {
    if packets == [] then 0
    else
      var p := packets[|packets| - 1];
      Bytes(packets[..|packets| - 1], progress) + (if p.Progress? == progress then p.bytes else 0)
  }

  /** A counter of 64 bits that holds at most 2^64 - 1 passes exactly the ceilings below that. */
  predicate Exceeds(sum: nat, ceiling: nat) {
    ceiling != 0 && ceiling < 0xFFFF_FFFF_FFFF_FFFF && sum > ceiling
  }

  predicate InBounds(c: Ceilings) {
    c.maxRowsRead <= MAX64 && c.maxReadSize <= MAX64 && c.maxRows <= MAX64 && c.maxResultSize <= MAX64
  }

  /** The breach that the last packet shows. */
  function LastBreach(c: Ceilings, packets: seq<Packet>): Option<Breach>
    requires packets != []
  {
    var progress := packets[|packets| - 1].Progress?;
    if progress then
      if Exceeds(Rows(packets, true), c.maxRowsRead) then
        Some(Breach("max_rows_read", "query_scan_limit", c.maxRowsRead))
      else if Exceeds(Bytes(packets, true), c.maxReadSize) then
        Some(Breach("max_read_size", "query_scan_limit", c.maxReadSize))
      else None
    else
      if Exceeds(Rows(packets, false), c.maxRows) then Some(Breach("max_rows", "query_result_limit", c.maxRows))
      else if Exceeds(Bytes(packets, false), c.maxResultSize) then
        Some(Breach("max_result_size", "query_result_limit", c.maxResultSize))
      else None
  }

  /** The first breach of a run stays. */
  function FirstBreach(c: Ceilings, packets: seq<Packet>): Option<Breach> {
    if packets == [] then None
    else
      var before := FirstBreach(c, packets[..|packets| - 1]);
      if before.Some? then before else LastBreach(c, packets)
  }

  predicate AnyExceeded(c: Ceilings, packets: seq<Packet>) {
    || Exceeds(Rows(packets, true), c.maxRowsRead) || Exceeds(Bytes(packets, true), c.maxReadSize)
    || Exceeds(Rows(packets, false), c.maxRows) || Exceeds(Bytes(packets, false), c.maxResultSize)
  }

  /** The meter reports a breach exactly when a sum of the run exceeds its ceiling. */
  lemma {:induction false} BreachExactlyWhenExceeded(c: Ceilings, packets: seq<Packet>)
    ensures FirstBreach(c, packets).Some? <==> AnyExceeded(c, packets)
  {
    if packets != [] {
      BreachExactlyWhenExceeded(c, packets[..|packets| - 1]);
    }
  }

  /** A run that went past a ceiling stays past it, with the same breach. */
  lemma {:induction false} BreachStays(c: Ceilings, packets: seq<Packet>, more: seq<Packet>)
    requires FirstBreach(c, packets).Some?
    ensures FirstBreach(c, packets + more) == FirstBreach(c, packets)
  {
    hide FirstBreach;
    if more == [] {
      assert packets + more == packets;
    } else {
      var front, all := more[..|more| - 1], packets + more;
      BreachStays(c, packets, front);
      assert all[..|all| - 1] == packets + front;
      BreachKept(c, all);
    }
  }

  lemma BreachKept(c: Ceilings, packets: seq<Packet>)
    requires packets != [] && FirstBreach(c, packets[..|packets| - 1]).Some?
    ensures FirstBreach(c, packets) == FirstBreach(c, packets[..|packets| - 1])
  {
  }

  function Saturated(sum: nat): nat {
    Min(sum, MAX64)
  }

  function Add(total: nat, more: nat): nat
    requires total <= MAX64
  {
    if more > MAX64 - total then MAX64 else total + more
  }

  lemma SumStep(packets: seq<Packet>, p: Packet)
    ensures Rows(packets + [p], true) == Rows(packets, true) + (if p.Progress? then p.rows else 0)
    ensures Rows(packets + [p], false) == Rows(packets, false) + (if p.Progress? then 0 else p.rows)
    ensures Bytes(packets + [p], true) == Bytes(packets, true) + (if p.Progress? then p.bytes else 0)
    ensures Bytes(packets + [p], false) == Bytes(packets, false) + (if p.Progress? then 0 else p.bytes)
  {
    assert (packets + [p])[..|packets|] == packets;
  }

  lemma BreachStep(c: Ceilings, packets: seq<Packet>, p: Packet)
    ensures FirstBreach(c, packets + [p]) ==
            if FirstBreach(c, packets).Some? then FirstBreach(c, packets) else LastBreach(c, packets + [p])
  {
    assert (packets + [p])[..|packets|] == packets;
  }

  /** The backstop of one run (CeilingMeter). `seen` is the history of its packets. */
  class CeilingMeter {
    const ceilings: Ceilings
    const start: int
    var rowsRead: nat
    var bytesRead: nat
    var rowsResult: nat
    var bytesResult: nat
    var breach: Option<Breach>
    ghost var seen: seq<Packet>

    ghost predicate Valid()
      reads this
    {
      && InBounds(ceilings)
      && rowsRead == Saturated(Rows(seen, true)) && bytesRead == Saturated(Bytes(seen, true))
      && rowsResult == Saturated(Rows(seen, false)) && bytesResult == Saturated(Bytes(seen, false))
      && breach == FirstBreach(ceilings, seen)
    }

    constructor (ceilings: Ceilings, start: int)
      requires InBounds(ceilings)
      ensures Valid() && seen == [] && this.ceilings == ceilings && this.start == start && breach == None
    {
      this.ceilings, this.start := ceilings, start;
      rowsRead, bytesRead, rowsResult, bytesResult, breach, seen := 0, 0, 0, 0, None, [];
    }

    method Keep(found: Breach)
      modifies `breach
      ensures breach == if old(breach).Some? then old(breach) else Some(found)
    {
      if breach.None? {
        breach := Some(found);
      }
    }

    method OnProgress(rows: nat, bytes: nat) returns (kept: Option<Breach>)
      requires Valid() && rows <= MAX64 && bytes <= MAX64
      modifies this
      ensures Valid() && seen == old(seen) + [Progress(rows, bytes)]
      ensures kept == breach == FirstBreach(ceilings, seen)
    {
      hide Rows, Bytes, FirstBreach;
      SumStep(seen, Progress(rows, bytes));
      BreachStep(ceilings, seen, Progress(rows, bytes));
      seen := seen + [Progress(rows, bytes)];
      rowsRead := Add(rowsRead, rows);
      bytesRead := Add(bytesRead, bytes);
      if ceilings.maxRowsRead != 0 && rowsRead > ceilings.maxRowsRead {
        Keep(Breach("max_rows_read", "query_scan_limit", ceilings.maxRowsRead));
      } else if ceilings.maxReadSize != 0 && bytesRead > ceilings.maxReadSize {
        Keep(Breach("max_read_size", "query_scan_limit", ceilings.maxReadSize));
      }
      kept := breach;
    }

    method OnResult(rows: nat, bytes: nat) returns (kept: Option<Breach>)
      requires Valid() && rows <= MAX64 && bytes <= MAX64
      modifies this
      ensures Valid() && seen == old(seen) + [Received(rows, bytes)]
      ensures kept == breach == FirstBreach(ceilings, seen)
    {
      hide Rows, Bytes, FirstBreach;
      SumStep(seen, Received(rows, bytes));
      BreachStep(ceilings, seen, Received(rows, bytes));
      seen := seen + [Received(rows, bytes)];
      rowsResult := Add(rowsResult, rows);
      bytesResult := Add(bytesResult, bytes);
      if ceilings.maxRows != 0 && rowsResult > ceilings.maxRows {
        Keep(Breach("max_rows", "query_result_limit", ceilings.maxRows));
      } else if ceilings.maxResultSize != 0 && bytesResult > ceilings.maxResultSize {
        Keep(Breach("max_result_size", "query_result_limit", ceilings.maxResultSize));
      }
      kept := breach;
    }

    /** The clock, in nanoseconds; the time 0 is no start. A run breaks its duration when one whole second more than the
        ceiling has passed. */
    method OnClock(now: int) returns (found: Option<Breach>)
      requires Valid()
      ensures breach.Some? ==> found == breach
      ensures breach.None? ==>
                (found.Some? <==> ceilings.maxDuration != 0 && start != 0
                                  && now - start >= (ceilings.maxDuration + 1) * 1_000_000_000)
      ensures breach.None? && found.Some? ==>
                found == Some(Breach("max_duration", "query_timeout", ceilings.maxDuration))
    {
      found := breach;
      if breach.None? && ceilings.maxDuration != 0 && start != 0 {
        // duration_cast truncates toward zero.
        var elapsed := if now >= start then (now - start) / 1_000_000_000 else -((start - now) / 1_000_000_000);
        if elapsed >= 0 && elapsed > ceilings.maxDuration {
          found := Some(Breach("max_duration", "query_timeout", ceilings.maxDuration));
        }
      }
    }
  }

  /** A ceiling of 2^64 - 1 never stops a run, whatever it reads: the counter cannot pass it. */
  lemma HighestCeilingNeverBreaks(packets: seq<Packet>)
    ensures FirstBreach(Ceilings(MAX64, MAX64, MAX64, MAX64, 0, 0), packets) == None
  {
    BreachExactlyWhenExceeded(Ceilings(MAX64, MAX64, MAX64, MAX64, 0, 0), packets);
  }
}
