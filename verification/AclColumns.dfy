/** What one ClickHouse identity can read of one table (src/allowed_objects.cpp): the answers about grants, the search
    for the readable columns, the inspection of a table and the check of its access. */
module AclColumns {
  import opened Common

  // ---- the grants and the answers about them ----

  /** The truth about a table: SELECT on the whole table, its columns, and the readable ones. A broken table is one
      that ClickHouse may answer with an error. */
  datatype Grant = Grant(whole: bool, columns: seq<string>, readable: set<string>, broken: bool)

  /** A grant on the whole table is a grant on each column. */
  predicate WellGranted(g: Grant) {
    g.whole ==> forall c | c in g.columns :: c in g.readable
  }

  /** A set of columns is granted when each one is. */
  predicate AllGranted(g: Grant, columns: seq<string>) {
    forall c | c in columns :: c in g.readable
  }

  predicate AnyGranted(g: Grant) {
    g.whole || exists c | c in g.columns :: c in g.readable
  }

  datatype Probe = Passed | Denied | Broken
  datatype Description = Described(columns: seq<string>) | DescribeDenied | DescribeBroken

  method Boolean() returns (b: bool) {
    if * {
      b := true;
    } else {
      b := false;
    }
  }

  /** CHECK GRANT, which may be unreadable. */
  method CheckGrant(truth: bool) returns (answer: Option<bool>)
    ensures answer.Some? ==> answer.value == truth
  {
    var readable := Boolean();
    answer := if readable then Some(truth) else None;
  }

  /** A statement that reads no row. */
  method ProbeFor(truth: bool, broken: bool) returns (answer: Probe)
    ensures answer.Broken? ==> broken
    ensures !answer.Broken? ==> (answer.Passed? <==> truth)
  {
    var fails := Boolean();
    answer := if broken && fails then Broken else if truth then Passed else Denied;
  }

  method Describe(g: Grant) returns (answer: Description)
    ensures answer.Described? ==> answer.columns == g.columns
    ensures answer.DescribeBroken? ==> g.broken
  {
    var fails := Boolean();
    var refused := Boolean();
    answer := if g.broken && fails then DescribeBroken else if refused then DescribeDenied else Described(g.columns);
  }

  // ---- the search for the columns ----

  function Power(k: nat): (p: nat)
    ensures p > 0
  {
    if k == 0 then 1 else 2 * Power(k - 1)
  }

  function ReadableIn(g: Grant, columns: seq<string>, begin: nat, end: nat): set<string>
    requires begin <= end <= |columns|
  {
    set i | begin <= i < end && columns[i] in g.readable :: columns[i]
  }

  /** How many of the columns are denied. */
  function DeniedIn(g: Grant, columns: seq<string>, begin: nat, end: nat): nat
    requires begin <= end <= |columns|
    decreases end - begin
  {
    if begin == end then 0
    else DeniedIn(g, columns, begin, end - 1) + (if columns[end - 1] in g.readable then 0 else 1)
  }

  lemma {:induction false} DeniedSplit(g: Grant, columns: seq<string>, begin: nat, middle: nat, end: nat)
    requires begin <= middle <= end <= |columns|
    ensures DeniedIn(g, columns, begin, end) == DeniedIn(g, columns, begin, middle) + DeniedIn(g, columns, middle, end)
    decreases end - middle
  {
    if middle < end {
      DeniedSplit(g, columns, begin, middle, end - 1);
    }
  }

  lemma {:induction false} NoneDenied(g: Grant, columns: seq<string>, begin: nat, end: nat)
    requires begin <= end <= |columns|
    ensures DeniedIn(g, columns, begin, end) == 0 <==> forall i | begin <= i < end :: columns[i] in g.readable
    decreases end - begin
  {
    if begin < end {
      NoneDenied(g, columns, begin, end - 1);
    }
  }

  lemma GrantedSlice(g: Grant, columns: seq<string>, begin: nat, end: nat)
    requires begin <= end <= |columns|
    ensures AllGranted(g, columns[begin..end]) <==> forall i | begin <= i < end :: columns[i] in g.readable
  {
    var slice := columns[begin..end];
    if AllGranted(g, slice) {
      forall i | begin <= i < end ensures columns[i] in g.readable {
        assert slice[i - begin] in slice;
      }
    }
  }

  lemma ReadableSplit(g: Grant, columns: seq<string>, begin: nat, middle: nat, end: nat)
    requires begin <= middle <= end <= |columns|
    ensures ReadableIn(g, columns, begin, end) ==
            ReadableIn(g, columns, begin, middle) + ReadableIn(g, columns, middle, end)
  {
    var all := ReadableIn(g, columns, begin, end);
    var left, right := ReadableIn(g, columns, begin, middle), ReadableIn(g, columns, middle, end);
    forall c ensures c in all <==> c in left + right {
      if c in all {
        var i :| begin <= i < end && columns[i] in g.readable && columns[i] == c;
        assert i < middle ==> c in left;
      }
    }
  }

  /** One half each: the costs of the halves make the cost of the whole. */
  lemma CostOfHalves(left: nat, right: nat, k: nat, a: nat, b: nat)
    requires k > 0 && left + right > 0 && a <= 1 + 2 * left * (k - 1) && b <= 1 + 2 * right * (k - 1)
    ensures 1 + a + b <= 1 + 2 * (left + right) * k
  {
    var d := left + right;
    assert 2 * left * (k - 1) + 2 * right * (k - 1) == 2 * d * (k - 1);
    assert 2 * d * k == 2 * d * (k - 1) + 2 * d;
  }

  /** One step of the search: CHECK GRANT decides, or the probe when the answer cannot be read. */
  method IsGranted(g: Grant, columns: seq<string>, begin: nat, end: nat) returns (granted: bool, failed: bool)
    requires begin < end <= |columns|
    ensures failed ==> g.broken
    ensures !failed ==> (granted <==> forall i | begin <= i < end :: columns[i] in g.readable)
  {
    GrantedSlice(g, columns, begin, end);
    var truth := AllGranted(g, columns[begin..end]);
    var checked := CheckGrant(truth);
    if checked.Some? {
      granted, failed := checked.value, false;
    } else {
      var probe := ProbeFor(truth, g.broken);
      granted, failed := probe.Passed?, probe.Broken?;
    }
  }

  /** The search finds exactly the readable columns, and a chunk of at most 2^k columns, d of them denied, takes at most
      1 + 2 d k steps. */
  method DiscoverColumns(g: Grant, columns: seq<string>, begin: nat, end: nat, allowed: set<string>, ghost k: nat)
    returns (after: set<string>, failed: bool, ghost steps: nat)
    requires begin <= end <= |columns| && end - begin <= Power(k)
    ensures failed ==> g.broken
    ensures !failed ==> after == allowed + ReadableIn(g, columns, begin, end)
    ensures steps <= 1 + 2 * DeniedIn(g, columns, begin, end) * k
    ensures begin == end ==> steps == 0
    decreases end - begin
  {
    hide ReadableIn, DeniedIn;
    after, failed, steps := allowed, false, 0;
    if begin == end {
      NothingReadable(g, columns, begin);
    } else {
      var granted;
      granted, failed := IsGranted(g, columns, begin, end);
      steps := 1;
      if !failed && granted {
        var i := begin;
        NothingReadable(g, columns, begin);
        while i < end
          invariant begin <= i <= end
          invariant after == allowed + ReadableIn(g, columns, begin, i)
        {
          OneReadable(g, columns, begin, i);
          after := after + {columns[i]};
          i := i + 1;
        }
      } else if !failed && end - begin == 1 {
        OneReadable(g, columns, begin, begin);
        NothingReadable(g, columns, begin);
      } else if !failed {
        after, failed, steps := DiscoverHalves(g, columns, begin, end, allowed, k);
      }
    }
  }

  method DiscoverHalves(g: Grant, columns: seq<string>, begin: nat, end: nat, allowed: set<string>, ghost k: nat)
    returns (after: set<string>, failed: bool, ghost steps: nat)
    requires end - begin >= 2 && end <= |columns| && end - begin <= Power(k)
    requires !(forall i | begin <= i < end :: columns[i] in g.readable)
    ensures failed ==> g.broken
    ensures !failed ==> after == allowed + ReadableIn(g, columns, begin, end)
    ensures steps <= 1 + 2 * DeniedIn(g, columns, begin, end) * k
    decreases end - begin, 0
  {
    hide ReadableIn, DeniedIn;
    var middle := begin + (end - begin) / 2;
    DeniedSplit(g, columns, begin, middle, end);
    NoneDenied(g, columns, begin, end);
    ReadableSplit(g, columns, begin, middle, end);
    assert k > 0 && Power(k) == 2 * Power(k - 1);
    ghost var left, right := 0, 0;
    after, failed, left := DiscoverColumns(g, columns, begin, middle, allowed, k - 1);
    if !failed {
      after, failed, right := DiscoverColumns(g, columns, middle, end, after, k - 1);
    }
    TimesNat(2 * DeniedIn(g, columns, middle, end), k - 1);
    CostOfHalves(DeniedIn(g, columns, begin, middle), DeniedIn(g, columns, middle, end), k, left, right);
    steps := 1 + left + right;
  }

  lemma {:induction false} TimesNat(a: nat, b: nat)
    ensures a * b >= 0
  {
    if b > 0 {
      TimesNat(a, b - 1);
      assert a * b == a * (b - 1) + a;
    }
  }

  lemma NothingReadable(g: Grant, columns: seq<string>, begin: nat)
    requires begin <= |columns|
    ensures ReadableIn(g, columns, begin, begin) == {} && DeniedIn(g, columns, begin, begin) == 0
  {
  }

  lemma OneReadable(g: Grant, columns: seq<string>, begin: nat, i: nat)
    requires begin <= i < |columns|
    ensures ReadableIn(g, columns, begin, i + 1) ==
            ReadableIn(g, columns, begin, i) + (if columns[i] in g.readable then {columns[i]} else {})
  {
    ReadableSplit(g, columns, begin, i, i + 1);
    var one := ReadableIn(g, columns, i, i + 1);
    assert forall c :: c in one <==> c == columns[i] && columns[i] in g.readable;
  }

  // ---- the inspection of a table ----

  const CHUNK := 64

  datatype AllowedTable = AllowedTable(database: string, table: string, allColumns: bool, partial: bool,
                                       columns: set<string>)

  /** The table can be read, column by column. */
  predicate AllowsColumn(t: AllowedTable, column: string) {
    t.allColumns || column in t.columns
  }

  /** The chunks of 64 of a column list. */
  function Chunks(n: nat): nat {
    (n + CHUNK - 1) / CHUNK
  }

  /** The columns of a table, chunk by chunk. */
  method DiscoverAll(g: Grant, columns: seq<string>) returns (allowed: set<string>, failed: bool, ghost steps: nat)
    ensures failed ==> g.broken
    ensures !failed ==> allowed == ReadableIn(g, columns, 0, |columns|)
    ensures steps <= Chunks(|columns|) + 12 * DeniedIn(g, columns, 0, |columns|)
  {
    hide ReadableIn, DeniedIn;
    allowed, failed, steps := {}, false, 0;
    var begin := 0;
    ghost var chunks := 0;
    NothingReadable(g, columns, 0);
    Power6();
    while begin < |columns| && !failed
      invariant begin <= |columns|
      invariant begin < |columns| ==> begin == CHUNK * chunks
      invariant begin >= |columns| ==> chunks == Chunks(|columns|)
      invariant failed ==> g.broken
      invariant !failed ==> allowed == ReadableIn(g, columns, 0, begin)
      invariant steps <= chunks + 12 * DeniedIn(g, columns, 0, begin)
      decreases |columns| - begin, !failed
    {
      var end := Min(|columns|, begin + CHUNK);
      ghost var more;
      allowed, failed, more := DiscoverColumns(g, columns, begin, end, allowed, 6);
      ReadableSplit(g, columns, 0, begin, end);
      DeniedSplit(g, columns, 0, begin, end);
      steps, chunks := steps + more, chunks + 1;
      begin := end;
    }
    DeniedSplit(g, columns, 0, begin, |columns|);
    if begin < |columns| {
      FewerChunks(chunks, |columns|);
    }
  }

  lemma Power6()
    ensures Power(6) == 64
  {
    assert Power(3) == 8;
  }

  lemma FewerChunks(chunks: nat, n: nat)
    requires CHUNK * chunks < n
    ensures chunks <= Chunks(n)
  {
  }

  /** What the inspection says of the columns: exactly the readable ones. */
  predicate ExactColumns(g: Grant, result: AllowedTable) {
    && (forall c | c in g.columns :: AllowsColumn(result, c) <==> c in g.readable)
    && (result.partial <==> !result.allColumns && result.columns != {})
    && (forall c | c in result.columns :: c in g.columns)
  }

  /** The exact columns of a table. `full` is the answer about the whole table and `answer` the description, when it was
      asked for. A granted table is described by no one, and of a table that may not be described nothing is allowed. */
  method InspectTable(g: Grant, database: string, table: string)
    returns (result: AllowedTable, failed: bool, ghost full: Option<bool>, ghost answer: Option<Description>)
    requires WellGranted(g)
    ensures result.database == database && result.table == table
    ensures full.Some? ==> full.value == g.whole
    ensures answer.None? <==> full == Some(true)
    ensures failed ==> g.broken && answer.Some? && !answer.value.DescribeDenied?
    ensures answer == Some(DescribeBroken) ==> failed
    ensures !failed && (answer.None? || answer.value.Described?) ==> ExactColumns(g, result)
    ensures !failed && answer == Some(DescribeDenied) ==> result == AllowedTable(database, table, false, false, {})
    ensures !failed && answer.Some? && answer.value.Described? ==>
              (result.allColumns <==> full.None? && g.columns != [] && AllGranted(g, g.columns))
    ensures full == Some(true) ==> result.allColumns
  {
    hide ReadableIn, DeniedIn;
    result := AllowedTable(database, table, false, false, {});
    failed, answer := false, None;
    var whole := CheckGrant(g.whole);
    full := whole;
    if whole == Some(true) {
      result := result.(allColumns := true);
    } else {
      var described := Describe(g);
      answer := Some(described);
      if described.DescribeBroken? {
        failed := true;
      } else if described.Described? {
        result, failed := InspectColumns(g, whole, result);
      }
    }
  }

  method InspectColumns(g: Grant, full: Option<bool>, empty: AllowedTable) returns (result: AllowedTable, failed: bool)
    requires WellGranted(g) && (full.Some? ==> !full.value && !g.whole)
    requires !empty.allColumns && !empty.partial && empty.columns == {}
    ensures failed ==> g.broken
    ensures result.database == empty.database && result.table == empty.table
    ensures !failed ==>
              && ExactColumns(g, result)
              && (result.allColumns <==> full.None? && g.columns != [] && AllGranted(g, g.columns))
  {
    hide DeniedIn;
    result, failed := empty, false;
    if g.columns != [] {
      var probe := Denied;
      if full.None? {
        probe := ProbeFor(AllGranted(g, g.columns), g.broken);
      }
      if probe.Broken? {
        failed := true;
      } else if probe.Passed? {
        result := result.(allColumns := true);
      } else {
        var columns;
        ghost var steps;
        columns, failed, steps := DiscoverAll(g, g.columns);
        result := result.(columns := columns, partial := columns != {});
        if !failed {
          ReadableAll(g);
        }
      }
    }
  }

  lemma ReadableAll(g: Grant)
    ensures forall c :: c in ReadableIn(g, g.columns, 0, |g.columns|) <==> c in g.columns && c in g.readable
  {
  }

  // ---- the access of a table ----

  datatype Access = Readable(table: AllowedTable) | NotReadable | Unanswered

  /** The table-level check: it says readable exactly when the identity can read something of the table, unless
      ClickHouse answers with an error. The table is given as a whole when the answer about its grant says so, or, when
      that answer could not be read, when a probe of all its columns passes. */
  method CheckTableAccess(g: Grant, database: string, table: string)
    returns (access: Access, ghost granted: Option<bool>, ghost answer: Option<Description>)
    requires WellGranted(g)
    ensures granted.Some? ==> granted.value == g.whole
    ensures access.Unanswered? ==> g.broken && granted != Some(true)
    ensures answer == Some(DescribeBroken) ==> access.Unanswered?
    ensures !access.Unanswered? ==> (access.Readable? <==> AnyGranted(g))
    ensures access.Readable? ==>
              && access.table.database == database && access.table.table == table && access.table.columns == {}
              && access.table.partial == !access.table.allColumns
              && (access.table.allColumns <==>
                    || granted == Some(true)
                    || (granted.None? && answer == Some(Described(g.columns)) && g.columns != []
                        && AllGranted(g, g.columns)))
  {
    var whole := CheckGrant(g.whole);
    granted, answer := whole, None;
    var out := AllowedTable(database, table, false, false, {});
    if whole == Some(true) {
      access := Readable(out.(allColumns := true));
    } else {
      var probe := ProbeFor(AnyGranted(g), g.broken);
      if probe.Broken? {
        access := Unanswered;
      } else if probe.Denied? {
        access := NotReadable;
      } else if whole.Some? {
        access := Readable(out.(partial := true));
      } else {
        var described := Describe(g);
        answer := Some(described);
        var columns := if described.Described? then described.columns else [];
        if described.DescribeBroken? {
          access := Unanswered;
        } else {
          var all := Denied;
          if columns != [] {
            all := ProbeFor(AllGranted(g, columns), g.broken);
          }
          out := out.(allColumns := all.Passed?, partial := !all.Passed?);
          access := if all.Broken? then Unanswered else Readable(out);
        }
      }
    }
  }
}
