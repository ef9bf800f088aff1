/** The databases and the objects that one ClickHouse identity can read, found within a budget
    (discover_objects, discover_databases and AclObjects::contains, src/allowed_objects.cpp). */
module AclDiscovery {
  import opened Common
  import opened OptionsOrder
  import opened AclColumns

  const MAX_ISSUES := 64

  datatype Listing = Listed | ListDenied | ListFailed

  /** The truth about a database: SELECT on all of it, the answer to its listing, its objects in their order, and the
      grants of each. */
  datatype Database = Database(name: string, whole: bool, listing: Listing, objects: seq<string>,
                               grantOf: string -> Grant)

  predicate Ascending(names: seq<string>) {
    forall i, j | 0 <= i < j < |names| :: LexLess(names[i], names[j])
  }

  /** SHOW gives sorted names, each once; a grant on the database is a grant on each object. */
  predicate WellShown(db: Database) {
    && Ascending(db.objects)
    && (forall n | n in db.objects :: WellGranted(db.grantOf(n)))
    && (db.whole ==> forall n | n in db.objects :: db.grantOf(n).whole)
  }

  predicate Visible(database: string) {
    database != "INFORMATION_SCHEMA" && database != "information_schema"
  }

  /** The two spellings of the schema database of SQL are never listed. */
  predicate Listable(database: string) {
    database !in ["INFORMATION_SCHEMA", "information_schema"]
  }

  lemma VisibleIsListable(database: string)
    ensures Visible(database) <==> Listable(database)
  {
  }

  predicate CanRead(db: Database, n: string) {
    AnyGranted(db.grantOf(n))
  }

  /** The bounds of one discovery, and what it used. */
  class Budget {
    const maxObjects: nat
    const maxPerDatabase: nat
    var used: nat
    var late: bool

    constructor (maxObjects: nat, maxPerDatabase: nat)
      ensures this.maxObjects == maxObjects && this.maxPerDatabase == maxPerDatabase && used == 0 && !late
    {
      this.maxObjects, this.maxPerDatabase, used, late := maxObjects, maxPerDatabase, 0, false;
    }

    /** The count is used up, or the deadline has passed. */
    method Spent() returns (spent: bool)
      modifies `late
      ensures old(late) ==> late
      ensures spent == (used >= maxObjects || late)
    {
      var passed := Boolean();
      late := late || passed;
      spent := used >= maxObjects || late;
    }
  }

  // ---- the issues ----

  datatype Issue = Issue(database: string, object: string)

  /** An answer keeps the first 64 issues. */
  function Kept(all: seq<Issue>): seq<Issue> {
    all[..Min(MAX_ISSUES, |all|)]
  }

  method AddIssue(issues: seq<Issue>, ghost all: seq<Issue>, issue: Issue) returns (after: seq<Issue>)
    requires issues == Kept(all)
    ensures after == Kept(all + [issue])
  {
    after := if |issues| < MAX_ISSUES then issues + [issue] else issues;
  }

  // ---- the checks of the objects of a database ----

  /** A check that CheckTableAccess can give for an object. */
  predicate Answers(db: Database, n: string, a: Access) {
    && (a.Unanswered? ==> db.grantOf(n).broken)
    && (!a.Unanswered? ==> (a.Readable? <==> CanRead(db, n)))
    && (a.Readable? ==>
          && a.table.database == db.name && a.table.table == n && a.table.columns == {}
          && a.table.partial == !a.table.allColumns
          && (a.table.allColumns ==> db.grantOf(n).whole || AllGranted(db.grantOf(n), db.grantOf(n).columns)))
  }

  /** The checks of the first objects, in their order. */
  predicate Checks(db: Database, checks: seq<Access>) {
    |checks| <= |db.objects| && forall i | 0 <= i < |checks| :: Answers(db, db.objects[i], checks[i])
  }

  function Tables(checks: seq<Access>): seq<AllowedTable> {
    if checks == [] then []
    else
      var last := checks[|checks| - 1];
      Tables(checks[..|checks| - 1]) + (if last.Readable? then [last.table] else [])
  }

  function Failures(db: Database, checks: seq<Access>): seq<Issue>
    requires |checks| <= |db.objects|
  {
    if checks == [] then []
    else
      var last := |checks| - 1;
      Failures(db, checks[..last]) + (if checks[last].Unanswered? then [Issue(db.name, db.objects[last])] else [])
  }

  datatype AclObjects = AclObjects(objects: seq<AllowedTable>, truncated: bool, issues: seq<Issue>)

  function WholeTable(database: string, n: string): AllowedTable {
    AllowedTable(database, n, true, false, {})
  }

  method CheckOne(db: Database, n: string) returns (a: Access)
    requires WellShown(db) && n in db.objects
    ensures Answers(db, n, a)
  {
    ghost var granted, answer;
    a, granted, answer := CheckTableAccess(db.grantOf(n), db.name, n);
  }

  /** The objects of a database. `checks` are the checks that were made. */
  method DiscoverObjects(db: Database, budget: Budget)
    returns (out: AclObjects, ghost checks: seq<Access>, ghost whole: bool)
    requires WellShown(db)
    modifies budget
    ensures var listed := Listable(db.name) && db.name != "" && db.listing.Listed?;
            && (!listed ==>
                  && out.objects == [] && !out.truncated && checks == []
                  && out.issues ==
                     if Listable(db.name) && db.name != "" && db.listing.ListFailed? then [Issue(db.name, "")] else [])
            && (listed && whole ==> db.whole && out == AclObjects(Wholes(db), false, []) && checks == [])
            && (listed && !whole ==>
                  && Checks(db, checks) && out.objects == Tables(checks)
                  && (out.truncated <==> |checks| < |db.objects|)
                  && out.issues == Kept(Failures(db, checks)))
    ensures out.truncated ==> budget.late || budget.used >= budget.maxObjects
    ensures budget.used == old(budget.used) + |checks| <= Max(old(budget.used), budget.maxObjects)
  {
    hide WellShown, Answers, Tables, Failures, Listable, Visible;
    out, checks, whole := AclObjects([], false, []), [], false;
    VisibleIsListable(db.name);
    if Visible(db.name) && db.name != "" {
      if db.listing.ListFailed? {
        out := out.(issues := [Issue(db.name, "")]);
      } else if db.listing.Listed? {
        var all := CheckGrant(db.whole);
        if all == Some(true) {
          whole := true;
          var objects := AllWhole(db.name, db.objects);
          out := AclObjects(objects, false, []);
        } else {
          out, checks := CheckAll(db, budget);
        }
      }
    }
  }

  function Wholes(db: Database): seq<AllowedTable> {
    seq(|db.objects|, i requires 0 <= i < |db.objects| =>
      AllowedTable(db.name, db.objects[i], true, false, {}))
  }

  method AllWhole(database: string, names: seq<string>) returns (objects: seq<AllowedTable>)
    ensures |objects| == |names| && forall i | 0 <= i < |names| :: objects[i] == WholeTable(database, names[i])
  {
    objects := [];
    for i := 0 to |names|
      invariant |objects| == i && forall k | 0 <= k < i :: objects[k] == WholeTable(database, names[k])
    {
      objects := objects + [WholeTable(database, names[i])];
    }
  }

  method CheckAll(db: Database, budget: Budget) returns (out: AclObjects, ghost checks: seq<Access>)
    requires WellShown(db)
    modifies budget
    ensures Checks(db, checks) && out.objects == Tables(checks)
    ensures out.truncated <==> |checks| < |db.objects|
    ensures out.truncated ==> budget.late || budget.used >= budget.maxObjects
    ensures out.issues == Kept(Failures(db, checks))
    ensures budget.used == old(budget.used) + |checks| <= Max(old(budget.used), budget.maxObjects)
  {
    hide WellShown, Answers, Tables, Failures, Kept;
    var objects, issues, truncated := [], [], false;
    checks := [];
    NothingChecked(db);
    var i := 0;
    while i < |db.objects| && !truncated
      invariant i <= |db.objects| && |checks| == i && Checks(db, checks)
      invariant objects == Tables(checks) && issues == Kept(Failures(db, checks))
      invariant truncated ==> i < |db.objects| && (budget.late || budget.used >= budget.maxObjects)
      invariant budget.used == old(budget.used) + i <= Max(old(budget.used), budget.maxObjects)
      decreases |db.objects| - i, !truncated
    {
      truncated := budget.Spent();
      if !truncated {
        budget.used := budget.used + 1;
        var a := CheckOne(db, db.objects[i]);
        OneChecked(db, checks, a);
        if a.Readable? {
          objects := objects + [a.table];
        } else if a.Unanswered? {
          issues := AddIssue(issues, Failures(db, checks), Issue(db.name, db.objects[i]));
        }
        assert Failures(db, checks) + [] == Failures(db, checks);
        checks := checks + [a];
        i := i + 1;
      }
    }
    out := AclObjects(objects, truncated, issues);
  }

  lemma NothingChecked(db: Database)
    ensures Tables([]) == [] && Failures(db, []) == [] && Kept([]) == []
  {
  }

  lemma OneChecked(db: Database, checks: seq<Access>, a: Access)
    requires |checks| < |db.objects|
    ensures Tables(checks + [a]) == Tables(checks) + (if a.Readable? then [a.table] else [])
    ensures Failures(db, checks + [a]) ==
            Failures(db, checks) + (if a.Unanswered? then [Issue(db.name, db.objects[|checks|])] else [])
  {
    assert (checks + [a])[..|checks|] == checks;
  }

  // ---- what is listed ----

  predicate TableNamed(objects: seq<AllowedTable>, n: string) {
    exists i | 0 <= i < |objects| :: objects[i].table == n
  }

  predicate SortedTables(objects: seq<AllowedTable>) {
    forall i, j | 0 <= i < j < |objects| :: LexLess(objects[i].table, objects[j].table)
  }

  lemma TableNamedAppend(objects: seq<AllowedTable>, t: AllowedTable, n: string)
    ensures TableNamed(objects + [t], n) <==> TableNamed(objects, n) || t.table == n
  {
    var all := objects + [t];
    if TableNamed(objects, n) {
      var i :| 0 <= i < |objects| && objects[i].table == n;
      assert all[i].table == n;
    }
    assert all[|objects|] == t;
  }

  /** The listed objects are exactly the objects that a check found readable, in the sorted order of the names. */
  lemma {:induction false} ListedTables(db: Database, checks: seq<Access>)
    requires Ascending(db.objects) && Checks(db, checks)
    ensures SortedTables(Tables(checks))
    ensures forall n :: TableNamed(Tables(checks), n) <==> FoundReadable(db, checks, n)
  {
    hide LexLess, Answers;
    if checks != [] {
      var last := |checks| - 1;
      var before, a := checks[..last], checks[last];
      assert checks == before + [a];
      ListedTables(db, before);
      OneChecked(db, before, a);
      AnswersNames(db, db.objects[last], a);
      assert Tables(before) + [] == Tables(before);
      forall n ensures TableNamed(Tables(checks), n) <==> FoundReadable(db, checks, n) {
        FoundAppend(db, before, a, n);
        if a.Readable? {
          TableNamedAppend(Tables(before), a.table, n);
        }
      }
      forall i | 0 <= i < |Tables(before)| && a.Readable? ensures LexLess(Tables(before)[i].table, a.table.table) {
        assert TableNamed(Tables(before), Tables(before)[i].table);
        var k :| 0 <= k < |before| && before[k].Readable? && db.objects[k] == Tables(before)[i].table;
      }
    }
  }

  lemma AnswersNames(db: Database, n: string, a: Access)
    requires Answers(db, n, a)
    ensures a.Readable? ==> a.table.table == n
  {
  }

  predicate FoundReadable(db: Database, checks: seq<Access>, n: string)
    requires |checks| <= |db.objects|
  {
    exists i | 0 <= i < |checks| :: checks[i].Readable? && db.objects[i] == n
  }

  lemma FoundAppend(db: Database, checks: seq<Access>, a: Access, n: string)
    requires |checks| < |db.objects|
    ensures FoundReadable(db, checks + [a], n) <==>
              FoundReadable(db, checks, n) || (a.Readable? && db.objects[|checks|] == n)
  {
    var all := checks + [a];
    if FoundReadable(db, checks, n) {
      var i :| 0 <= i < |checks| && checks[i].Readable? && db.objects[i] == n;
      assert all[i] == checks[i];
    }
    assert all[|checks|] == a;
  }

  /** Nothing unreadable is listed; and what is readable is listed, unless its check failed or came after the budget. */
  lemma ObjectsMeaning(db: Database, checks: seq<Access>, i: nat)
    requires Ascending(db.objects) && Checks(db, checks) && i < |db.objects|
    ensures TableNamed(Tables(checks), db.objects[i]) ==> CanRead(db, db.objects[i])
    ensures TableNamed(Tables(checks), db.objects[i]) <==>
              CanRead(db, db.objects[i]) && i < |checks| && !checks[i].Unanswered?
    ensures forall n | TableNamed(Tables(checks), n) :: n in db.objects
  {
    hide LexLess, CanRead, Tables;
    ListedTables(db, checks);
    var n := db.objects[i];
    if TableNamed(Tables(checks), n) {
      var k :| 0 <= k < |checks| && checks[k].Readable? && db.objects[k] == n;
      SameName(db.objects, i, k);
      assert Answers(db, n, checks[k]);
    }
    if i < |checks| {
      assert Answers(db, n, checks[i]);
    }
  }

  lemma {:induction false} FailuresAt(db: Database, checks: seq<Access>, i: nat)
    requires Ascending(db.objects) && |checks| <= |db.objects| && i < |checks| && checks[i].Unanswered?
    ensures var at := |Failures(db, checks[..i])|;
            && at < |Failures(db, checks)| && Failures(db, checks)[at] == Issue(db.name, db.objects[i])
            && forall k | 0 <= k < |Failures(db, checks)| && k != at ::
                 Failures(db, checks)[k] != Issue(db.name, db.objects[i])
  {
    hide LexLess, Ascending;
    var last := |checks| - 1;
    if i < last {
      FailuresAt(db, checks[..last], i);
      assert checks[..last][..i] == checks[..i];
      if db.objects[i] == db.objects[last] {
        SameName(db.objects, i, last);
      }
    } else {
      FailuresNamed(db, checks[..last], i);
    }
  }

  lemma {:induction false} FailuresNamed(db: Database, checks: seq<Access>, i: nat)
    requires Ascending(db.objects) && |checks| <= i < |db.objects|
    ensures forall k | 0 <= k < |Failures(db, checks)| :: Failures(db, checks)[k] != Issue(db.name, db.objects[i])
  {
    hide LexLess, Ascending;
    if checks != [] {
      var last := |checks| - 1;
      FailuresNamed(db, checks[..last], i);
      if db.objects[i] == db.objects[last] {
        SameName(db.objects, i, last);
      }
    }
  }

  /** The answer tells about a failed check exactly when fewer than 64 checks failed before it; the other failed objects
      are left out without a trace. */
  lemma FailureIsReported(db: Database, checks: seq<Access>, i: nat)
    requires Ascending(db.objects) && |checks| <= |db.objects| && i < |checks| && checks[i].Unanswered?
    ensures Issue(db.name, db.objects[i]) in Kept(Failures(db, checks)) <==> |Failures(db, checks[..i])| < 64
  {
    hide Failures, Ascending;
    FailuresAt(db, checks, i);
    var all, at := Failures(db, checks), |Failures(db, checks[..i])|;
    if at < 64 {
      assert Kept(all)[at] == all[at];
    }
  }

  lemma SameName(names: seq<string>, i: nat, k: nat)
    requires Ascending(names) && i < |names| && k < |names| && names[i] == names[k]
    ensures i == k
  {
    hide LexLess;
    LexIrreflexive(names[i]);
  }

  /** std::lower_bound and a comparison: it answers like a search through the whole list. */
  method Contains(objects: seq<AllowedTable>, table: string) returns (found: bool)
    requires SortedTables(objects)
    ensures found <==> TableNamed(objects, table)
  {
    hide LexLess;
    var low, high := 0, |objects|;
    while low < high
      invariant 0 <= low <= high <= |objects|
      invariant forall i | 0 <= i < low :: LexLess(objects[i].table, table)
      invariant forall i | high <= i < |objects| :: !LexLess(objects[i].table, table)
    {
      var middle := low + (high - low) / 2;
      if LexLess(objects[middle].table, table) {
        forall i | 0 <= i < middle ensures LexLess(objects[i].table, table) {
          LexTransitive(objects[i].table, objects[middle].table, table);
        }
        low := middle + 1;
      } else {
        forall i | middle < i < |objects| ensures !LexLess(objects[i].table, table) {
          if LexLess(objects[i].table, table) {
            LexTransitive(objects[middle].table, objects[i].table, table);
          }
        }
        high := middle;
      }
    }
    found := low < |objects| && objects[low].table == table;
    LexIrreflexive(table);
    assert forall i | low < i < |objects| :: LexLess(objects[low].table, objects[i].table);
    assert forall i | 0 <= i < |objects| && objects[i].table == table :: i == low;
  }

  // ---- the databases ----

  /** What becomes of a shown database. */
  datatype Verdict = Shown | Unverified | Hidden | NotListed

  /** The verdict after checks without the database-wide grant: the first readable object decides, and a database that
      the budget did not finish is not hidden. */
  function VerdictOf(db: Database, checks: seq<Access>): Verdict {
    if checks != [] && checks[|checks| - 1].Readable? then Shown
    else if |checks| < |db.objects| then Unverified
    else Hidden
  }

  predicate FirstReadableEnds(checks: seq<Access>) {
    forall i | 0 <= i < |checks| - 1 :: !checks[i].Readable?
  }

  predicate ReadableDatabase(db: Database) {
    db.whole || exists n | n in db.objects :: CanRead(db, n)
  }

  /** A database with a readable object that ClickHouse can answer about. */
  predicate SurelyReadable(db: Database) {
    exists n | n in db.objects :: CanRead(db, n) && !db.grantOf(n).broken
  }

  /** A database is shown exactly when an object check says readable; it is hidden exactly when all its objects were
      checked, and each readable one failed. */
  lemma VerdictMeaning(db: Database, checks: seq<Access>)
    requires Checks(db, checks) && FirstReadableEnds(checks)
    ensures VerdictOf(db, checks) == Shown ==> ReadableDatabase(db)
    ensures VerdictOf(db, checks) == Hidden <==>
              && |checks| == |db.objects|
              && forall i | 0 <= i < |checks| :: CanRead(db, db.objects[i]) ==> checks[i].Unanswered?
    ensures SurelyReadable(db) ==> VerdictOf(db, checks) != Hidden
  {
    hide CanRead;
    if checks != [] {
      var last := |checks| - 1;
      assert Answers(db, db.objects[last], checks[last]);
    }
    forall i | 0 <= i < |checks| ensures Answers(db, db.objects[i], checks[i]) {
    }
  }

  /** Checks that ClickHouse can answer and that hide the database. */
  predicate Hides(db: Database, checks: seq<Access>) {
    Checks(db, checks) && FirstReadableEnds(checks) && VerdictOf(db, checks) == Hidden
  }

  /** Every readable object fails, and the other ones are denied. */
  function FailingChecks(db: Database): (checks: seq<Access>) {
    seq(|db.objects|, i requires 0 <= i < |db.objects| =>
      if CanRead(db, db.objects[i]) then Unanswered else NotReadable)
  }

  /** Checked to its end, a database can be hidden exactly when ClickHouse may answer with an error about each object of
      it that the identity can read. */
  lemma HiddenExactlyWhen(db: Database)
    ensures (exists checks :: Hides(db, checks)) <==> !SurelyReadable(db)
    ensures !SurelyReadable(db) ==> Hides(db, FailingChecks(db))
  {
    hide CanRead;
    forall checks | Hides(db, checks) ensures !SurelyReadable(db) {
      VerdictMeaning(db, checks);
    }
    if !SurelyReadable(db) {
      var checks := FailingChecks(db);
      forall i | 0 <= i < |checks| ensures Answers(db, db.objects[i], checks[i]) {
        assert db.objects[i] in db.objects;
      }
      assert Hides(db, checks);
    }
  }

  lemma ProbedNext(db: Database, all: seq<Issue>, checks: seq<Access>, a: Access)
    requires Checks(db, checks) && FirstReadableEnds(checks) && |checks| < |db.objects|
    requires Answers(db, db.objects[|checks|], a) && (checks != [] ==> !checks[|checks| - 1].Readable?)
    ensures Checks(db, checks + [a]) && FirstReadableEnds(checks + [a])
    ensures all + Failures(db, checks + [a]) ==
            all + Failures(db, checks) + (if a.Unanswered? then [Issue(db.name, db.objects[|checks|])] else [])
  {
    hide Answers, Failures;
    OneChecked(db, checks, a);
  }

  method ProbeDatabase(db: Database, budget: Budget, issues: seq<Issue>, ghost all: seq<Issue>)
    returns (verdict: Verdict, after: seq<Issue>, ghost checks: seq<Access>)
    requires WellShown(db) && issues == Kept(all)
    modifies budget
    ensures Checks(db, checks) && FirstReadableEnds(checks) && verdict == VerdictOf(db, checks)
    ensures after == Kept(all + Failures(db, checks))
    ensures |checks| <= budget.maxPerDatabase && (old(budget.late) ==> budget.late)
    ensures verdict == Unverified ==>
              budget.late || budget.used >= budget.maxObjects || |checks| == budget.maxPerDatabase
    ensures budget.used == old(budget.used) + |checks| <= Max(old(budget.used), budget.maxObjects)
  {
    hide WellShown, Answers, Checks, FirstReadableEnds, Failures, Kept;
    var readable, decided := false, true;
    checks, after := [], issues;
    NothingProbed(db, all);
    var i := 0;
    while i < |db.objects| && !readable && decided
      invariant i <= |db.objects| && |checks| == i && i <= budget.maxPerDatabase
      invariant Checks(db, checks) && FirstReadableEnds(checks)
      invariant readable <==> checks != [] && checks[i - 1].Readable?
      invariant old(budget.late) ==> budget.late
      invariant !decided ==> i < |db.objects| && !readable
      invariant !decided ==> budget.late || budget.used >= budget.maxObjects || i >= budget.maxPerDatabase
      invariant after == Kept(all + Failures(db, checks))
      invariant budget.used == old(budget.used) + i <= Max(old(budget.used), budget.maxObjects)
      decreases |db.objects| - i, decided
    {
      var spent := budget.Spent();
      if spent || i >= budget.maxPerDatabase {
        decided := false;
      } else {
        budget.used := budget.used + 1;
        var a := CheckOne(db, db.objects[i]);
        readable := a.Readable?;
        ProbedNext(db, all, checks, a);
        if a.Unanswered? {
          after := AddIssue(after, all + Failures(db, checks), Issue(db.name, db.objects[i]));
        } else {
          assert all + Failures(db, checks) + [] == all + Failures(db, checks);
        }
        checks := checks + [a];
        i := i + 1;
      }
    }
    verdict := if readable then Shown else if !decided then Unverified else Hidden;
  }

  lemma NothingProbed(db: Database, all: seq<Issue>)
    ensures Checks(db, []) && FirstReadableEnds([]) && all + Failures(db, []) == all
  {
  }

  // ---- the list of the databases ----

  function Inserted(names: seq<string>, n: string): seq<string> {
    if names == [] || LexLess(names[|names| - 1], n) then names + [n]
    else if names[|names| - 1] == n then names
    else Inserted(names[..|names| - 1], n) + [names[|names| - 1]]
  }

  lemma {:induction false} InsertedNames(names: seq<string>, n: string)
    ensures forall m :: m in Inserted(names, n) <==> m in names || m == n
  {
    hide LexLess;
    if names != [] {
      InsertedNames(names[..|names| - 1], n);
      assert names == names[..|names| - 1] + [names[|names| - 1]];
    }
  }

  lemma {:induction false} InsertedAscending(names: seq<string>, n: string)
    requires Ascending(names)
    ensures Ascending(Inserted(names, n))
  {
    hide LexLess;
    if names != [] {
      var last, front := names[|names| - 1], names[..|names| - 1];
      if LexLess(last, n) {
        forall i | 0 <= i < |names| ensures LexLess(names[i], n) {
          if i < |names| - 1 {
            LexTransitive(names[i], last, n);
          }
        }
      } else if last != n {
        LexTotal(last, n);
        InsertedAscending(front, n);
        InsertedNames(front, n);
        forall i | 0 <= i < |Inserted(front, n)| ensures LexLess(Inserted(front, n)[i], last) {
          assert Inserted(front, n)[i] in Inserted(front, n);
        }
      }
    }
  }

  /** sort_unique. */
  method SortUnique(names: seq<string>) returns (sorted: seq<string>)
    ensures Ascending(sorted) && forall n :: n in sorted <==> n in names
  {
    hide Inserted, LexLess;
    sorted := [];
    for i := 0 to |names|
      invariant Ascending(sorted) && forall n :: n in sorted <==> n in names[..i]
    {
      InsertedNames(sorted, names[i]);
      InsertedAscending(sorted, names[i]);
      assert names[..i + 1] == names[..i] + [names[i]];
      sorted := Inserted(sorted, names[i]);
    }
    assert names[..|names|] == names;
  }

  datatype AclDatabases = AclDatabases(databases: seq<string>, unverified: seq<string>, truncated: bool,
                                       issues: seq<Issue>)

  /** How one shown database was judged: its name is not shown at all, the budget was spent before it, the identity has
      SELECT on all of it, its listing was denied or failed, or its objects were checked. */
  datatype Judged = Invisible | BudgetSpent | WholeGranted | Refused | Failed | Probed(checks: seq<Access>)

  predicate WellJudged(db: Database, run: Judged) {
    && (run.Invisible? <==> !Listable(db.name))
    && match run
       case Invisible => true
       case BudgetSpent => true
       case WholeGranted => db.whole
       case Refused => db.listing.ListDenied?
       case Failed => db.listing.ListFailed?
       case Probed(checks) => db.listing.Listed? && Checks(db, checks) && FirstReadableEnds(checks)
  }

  function VerdictFrom(db: Database, run: Judged): Verdict {
    match run
    case Invisible => NotListed
    case BudgetSpent => Unverified
    case WholeGranted => Shown
    case Refused => NotListed
    case Failed => NotListed
    case Probed(checks) => VerdictOf(db, checks)
  }

  /** The failures of one database, as they are reported. */
  function FailuresOf(db: Database, run: Judged): seq<Issue>
    requires WellJudged(db, run)
  {
    match run
    case Failed => [Issue(db.name, "")]
    case Probed(checks) => Failures(db, checks)
    case _ => []
  }

  method JudgeDatabase(db: Database, budget: Budget, issues: seq<Issue>, ghost all: seq<Issue>)
    returns (v: Verdict, after: seq<Issue>, ghost run: Judged)
    requires WellShown(db) && Listable(db.name) && issues == Kept(all)
    modifies budget
    ensures WellJudged(db, run) && v == VerdictFrom(db, run) && after == Kept(all + FailuresOf(db, run))
    ensures run.Probed? ==> |run.checks| <= budget.maxPerDatabase
    ensures old(budget.late) ==> budget.late
    ensures run.BudgetSpent? ==> budget.late || budget.used >= budget.maxObjects
    ensures v == Unverified ==>
              || budget.late || budget.used >= budget.maxObjects
              || (run.Probed? && |run.checks| == budget.maxPerDatabase)
    ensures budget.used == old(budget.used) + if run.Probed? then |run.checks| else 0
    ensures budget.used <= Max(old(budget.used), budget.maxObjects)
  {
    hide WellShown, Kept, Checks, Failures, FirstReadableEnds, Listable;
    v, after, run := NotListed, issues, Refused;
    assert all + [] == all;
    var spent := budget.Spent();
    if spent {
      v, run := Unverified, BudgetSpent;
    } else {
      var whole := CheckGrant(db.whole);
      if whole == Some(true) {
        v, run := Shown, WholeGranted;
      } else if db.listing.ListFailed? {
        after := AddIssue(issues, all, Issue(db.name, ""));
        run := Failed;
      } else if db.listing.Listed? {
        ghost var checks;
        v, after, checks := ProbeDatabase(db, budget, issues, all);
        run := Probed(checks);
      }
    }
  }

  /** One verdict for each shown database. */
  ghost predicate Collects(shown: seq<Database>, verdicts: seq<Verdict>, v: Verdict, names: seq<string>) {
    |verdicts| <= |shown| && forall n :: n in names <==> NamedWith(shown, verdicts, v, n)
  }

  predicate NamedWith(shown: seq<Database>, verdicts: seq<Verdict>, v: Verdict, n: string)
    requires |verdicts| <= |shown|
  {
    exists i | 0 <= i < |verdicts| :: Listable(shown[i].name) && verdicts[i] == v && shown[i].name == n
  }

  lemma NamedWithNext(shown: seq<Database>, verdicts: seq<Verdict>, v: Verdict, next: Verdict, n: string)
    requires |verdicts| < |shown|
    ensures var db := shown[|verdicts|];
            NamedWith(shown, verdicts + [next], v, n) <==>
              NamedWith(shown, verdicts, v, n) || (Listable(db.name) && next == v && db.name == n)
  {
    hide Listable;
    var more := verdicts + [next];
    if NamedWith(shown, verdicts, v, n) {
      var i :| 0 <= i < |verdicts| && Listable(shown[i].name) && verdicts[i] == v && shown[i].name == n;
      assert more[i] == verdicts[i];
    }
    assert more[|verdicts|] == next;
  }

  lemma CollectsNext(shown: seq<Database>, verdicts: seq<Verdict>, v: Verdict, next: Verdict, names: seq<string>)
    requires |verdicts| < |shown| && Collects(shown, verdicts, v, names)
    ensures var db := shown[|verdicts|];
            Collects(shown, verdicts + [next], v, if Listable(db.name) && next == v then names + [db.name] else names)
  {
    hide NamedWith, Listable;
    var db := shown[|verdicts|];
    forall n
      ensures NamedWith(shown, verdicts + [next], v, n) <==>
                n in if Listable(db.name) && next == v then names + [db.name] else names
    {
      NamedWithNext(shown, verdicts, v, next, n);
    }
  }

  /** The runs of the databases, with their verdicts and all their failures in order. */
  ghost predicate JudgedAll(shown: seq<Database>, runs: seq<Judged>, verdicts: seq<Verdict>) {
    && |runs| == |verdicts| <= |shown|
    && forall i | 0 <= i < |runs| :: WellJudged(shown[i], runs[i]) && verdicts[i] == VerdictFrom(shown[i], runs[i])
  }

  function AllFailures(shown: seq<Database>, runs: seq<Judged>): seq<Issue>
    requires |runs| <= |shown| && forall i | 0 <= i < |runs| :: WellJudged(shown[i], runs[i])
  {
    if runs == [] then []
    else
      var last := |runs| - 1;
      AllFailures(shown, runs[..last]) + FailuresOf(shown[last], runs[last])
  }

  lemma JudgedNext(shown: seq<Database>, runs: seq<Judged>, verdicts: seq<Verdict>, run: Judged)
    requires JudgedAll(shown, runs, verdicts) && |runs| < |shown| && WellJudged(shown[|runs|], run)
    ensures JudgedAll(shown, runs + [run], verdicts + [VerdictFrom(shown[|runs|], run)])
    ensures AllFailures(shown, runs + [run]) == AllFailures(shown, runs) + FailuresOf(shown[|runs|], run)
  {
    hide WellJudged, FailuresOf, VerdictFrom;
    var more := runs + [run];
    assert more[..|runs|] == runs;
    assert forall i | 0 <= i < |runs| :: more[i] == runs[i];
  }

  /** The databases of the identity: the shown ones, and the ones without an answer. `runs` tells how each of them was
      judged. */
  method DiscoverDatabases(shown: seq<Database>, budget: Budget)
    returns (out: AclDatabases, ghost runs: seq<Judged>, ghost verdicts: seq<Verdict>)
    requires forall i | 0 <= i < |shown| :: WellShown(shown[i])
    modifies budget
    ensures |runs| == |shown| && JudgedAll(shown, runs, verdicts)
    ensures forall i | 0 <= i < |runs| && runs[i].Probed? :: |runs[i].checks| <= budget.maxPerDatabase
    ensures forall i | 0 <= i < |runs| && verdicts[i].Unverified? ::
              || budget.late || budget.used >= budget.maxObjects
              || (runs[i].Probed? && |runs[i].checks| == budget.maxPerDatabase)
    ensures Collects(shown, verdicts, Shown, out.databases) && Ascending(out.databases)
    ensures Collects(shown, verdicts, Unverified, out.unverified) && Ascending(out.unverified)
    ensures out.truncated <==> out.unverified != []
    ensures out.issues == Kept(AllFailures(shown, runs))
    ensures budget.used <= Max(old(budget.used), budget.maxObjects)
  {
    hide WellShown, JudgedAll, WellJudged, VerdictFrom, FailuresOf, Kept, Collects, NamedWith, LexLess, Listable,
      AllFailures;
    var databases, unverified, truncated, issues := [], [], false, [];
    runs, verdicts := [], [];
    NothingNamed(shown);
    for i := 0 to |shown|
      invariant |runs| == |verdicts| == i && JudgedAll(shown, runs, verdicts)
      invariant forall k | 0 <= k < i && runs[k].Probed? :: |runs[k].checks| <= budget.maxPerDatabase
      invariant forall k | 0 <= k < i && verdicts[k].Unverified? ::
                  || budget.late || budget.used >= budget.maxObjects
                  || (runs[k].Probed? && |runs[k].checks| == budget.maxPerDatabase)
      invariant Collects(shown, verdicts, Shown, databases) && Collects(shown, verdicts, Unverified, unverified)
      invariant truncated <==> unverified != []
      invariant WellJudgedFirst(shown, runs) && issues == Kept(AllFailures(shown, runs))
      invariant budget.used <= Max(old(budget.used), budget.maxObjects)
    {
      var v := NotListed;
      ghost var run, before, beforeLeft := Invisible, databases, unverified;
      VisibleIsListable(shown[i].name);
      if Visible(shown[i].name) {
        v, issues, run := JudgeDatabase(shown[i], budget, issues, AllFailures(shown, runs));
        if v == Shown {
          databases := databases + [shown[i].name];
        } else if v == Unverified {
          unverified, truncated := unverified + [shown[i].name], true;
        }
      } else {
        InvisibleIsWell(shown[i]);
        assert AllFailures(shown, runs) + [] == AllFailures(shown, runs);
      }
      JudgedNext(shown, runs, verdicts, run);
      CollectsNext(shown, verdicts, Shown, v, before);
      CollectsNext(shown, verdicts, Unverified, v, beforeLeft);
      runs, verdicts := runs + [run], verdicts + [v];
    }
    var sorted := SortUnique(databases);
    var left := SortUnique(unverified);
    SameEmptiness(unverified, left);
    SameNames(shown, verdicts, Shown, databases, sorted);
    SameNames(shown, verdicts, Unverified, unverified, left);
    out := AclDatabases(sorted, left, truncated, issues);
  }

  ghost predicate WellJudgedFirst(shown: seq<Database>, runs: seq<Judged>) {
    |runs| <= |shown| && forall i | 0 <= i < |runs| :: WellJudged(shown[i], runs[i])
  }

  lemma SameNames(shown: seq<Database>, verdicts: seq<Verdict>, v: Verdict, a: seq<string>, b: seq<string>)
    requires Collects(shown, verdicts, v, a) && forall n :: n in b <==> n in a
    ensures Collects(shown, verdicts, v, b)
  {
    hide NamedWith;
  }

  lemma NothingNamed(shown: seq<Database>)
    ensures Collects(shown, [], Shown, []) && Collects(shown, [], Unverified, [])
    ensures JudgedAll(shown, [], []) && Kept(AllFailures(shown, [])) == []
  {
  }

  lemma InvisibleIsWell(db: Database)
    requires !Listable(db.name)
    ensures WellJudged(db, Invisible) && VerdictFrom(db, Invisible) == NotListed && FailuresOf(db, Invisible) == []
  {
  }

  lemma SameEmptiness(a: seq<string>, b: seq<string>)
    requires forall n :: n in b <==> n in a
    ensures a == [] <==> b == []
  {
    if a != [] {
      assert a[0] in b;
    }
    if b != [] {
      assert b[0] in a;
    }
  }

  // ---- what the two lists mean ----

  /** No other shown database has this name. */
  predicate NamedOnce(shown: seq<Database>, i: nat) {
    i < |shown| && forall k | 0 <= k < |shown| && shown[k].name == shown[i].name :: k == i
  }

  /** All of the database was checked, or its listing was not given. */
  predicate Decided(db: Database, run: Judged) {
    !run.BudgetSpent? && (run.Probed? ==> VerdictOf(db, run.checks) != Unverified)
  }

  lemma VerdictFromMeaning(db: Database, run: Judged)
    requires WellJudged(db, run)
    ensures VerdictFrom(db, run) == Shown ==> Listable(db.name) && ReadableDatabase(db)
    ensures SurelyReadable(db) && Listable(db.name) && db.listing.Listed? && Decided(db, run) ==>
              VerdictFrom(db, run) == Shown
    ensures VerdictFrom(db, run) == Hidden <==> run.Probed? && Hides(db, run.checks)
  {
    hide CanRead, SurelyReadable, ReadableDatabase, Listable;
    if run.Probed? {
      VerdictMeaning(db, run.checks);
    } else if run.WholeGranted? {
      WholeIsReadable(db);
    }
  }

  lemma WholeIsReadable(db: Database)
    requires db.whole
    ensures ReadableDatabase(db)
  {
  }

  lemma InList(shown: seq<Database>, verdicts: seq<Verdict>, v: Verdict, names: seq<string>, i: nat)
    requires |verdicts| == |shown| && Collects(shown, verdicts, v, names) && NamedOnce(shown, i)
    requires Listable(shown[i].name)
    ensures shown[i].name in names <==> verdicts[i] == v
  {
    hide Listable;
    assert verdicts[i] == v ==> NamedWith(shown, verdicts, v, shown[i].name);
  }

  /** No database is listed that the identity cannot read. A visible database is in neither list exactly when its
      listing was not given, or all its objects were checked and each readable one failed. A database with a readable
      object that ClickHouse answers about is listed, or unverified with truncated, or its listing was not given. */
  lemma DatabasesMeaning(shown: seq<Database>, runs: seq<Judged>, verdicts: seq<Verdict>, out: AclDatabases, i: nat)
    requires |runs| == |shown| && JudgedAll(shown, runs, verdicts)
    requires Collects(shown, verdicts, Shown, out.databases) && Collects(shown, verdicts, Unverified, out.unverified)
    requires out.truncated <==> out.unverified != []
    requires i < |shown| && NamedOnce(shown, i) && Listable(shown[i].name)
    ensures shown[i].name in out.databases ==> ReadableDatabase(shown[i])
    ensures shown[i].name !in out.databases && shown[i].name !in out.unverified <==>
              || runs[i].Refused? || runs[i].Failed?
              || (runs[i].Probed? && Hides(shown[i], runs[i].checks))
    ensures SurelyReadable(shown[i]) ==>
              || shown[i].name in out.databases
              || (shown[i].name in out.unverified && out.truncated)
              || !shown[i].listing.Listed?
  {
    hide ReadableDatabase, SurelyReadable, Listable, NamedWith, Collects, NamedOnce, Checks, FirstReadableEnds;
    InList(shown, verdicts, Shown, out.databases, i);
    InList(shown, verdicts, Unverified, out.unverified, i);
    VerdictFromMeaning(shown[i], runs[i]);
    assert WellJudged(shown[i], runs[i]);
  }

  /** What the check of an object says when ClickHouse answers it. */
  function TrueAnswer(db: Database, n: string): Access {
    var whole := db.grantOf(n).whole;
    if CanRead(db, n) then Readable(AllowedTable(db.name, n, whole, !whole, {})) else NotReadable
  }

  /** The checks of the first k objects, up to the first readable one, when ClickHouse answers all of them. */
  function TrueChecks(db: Database, k: nat): (checks: seq<Access>)
    requires k <= |db.objects|
  {
    if k == 0 then []
    else
      var before := TrueChecks(db, k - 1);
      if before != [] && before[|before| - 1].Readable? then before else before + [TrueAnswer(db, db.objects[k - 1])]
  }

  lemma {:induction false} TrueChecksAreChecks(db: Database, k: nat)
    requires k <= |db.objects|
    ensures var checks := TrueChecks(db, k);
            && Checks(db, checks) && FirstReadableEnds(checks) && |checks| <= k
            && (|checks| == k || (checks != [] && checks[|checks| - 1].Readable?))
  {
    if k > 0 {
      hide CanRead;
      TrueChecksAreChecks(db, k - 1);
    }
  }

  /** A run of a database that no bound cuts. */
  function OwnRun(db: Database): Judged {
    if !Listable(db.name) then Invisible
    else match db.listing
      case ListDenied => Refused
      case ListFailed => Failed
      case Listed => Probed(TrueChecks(db, |db.objects|))
  }

  lemma OwnRunIsWell(db: Database)
    ensures WellJudged(db, OwnRun(db)) && Decided(db, OwnRun(db))
  {
    hide Checks, FirstReadableEnds, Listable;
    TrueChecksAreChecks(db, |db.objects|);
  }

  /** Runs of all databases that no bound cut. */
  ghost predicate Finished(shown: seq<Database>, runs: seq<Judged>) {
    |runs| == |shown| && forall k | 0 <= k < |shown| :: WellJudged(shown[k], runs[k]) && Decided(shown[k], runs[k])
  }

  /** A discovery that no bound cuts, after which the database is in neither list. */
  ghost predicate Loses(shown: seq<Database>, runs: seq<Judged>, i: nat) {
    && i < |shown| && Finished(shown, runs)
    && VerdictFrom(shown[i], runs[i]) != Shown && VerdictFrom(shown[i], runs[i]) != Unverified
  }

  /** A visible database whose listing is given can end in neither list, with the budget not spent, exactly when
      ClickHouse may answer with an error about each object of it that the identity can read. */
  lemma LostExactlyWhen(shown: seq<Database>, i: nat)
    requires i < |shown| && Listable(shown[i].name) && shown[i].listing.Listed?
    ensures (exists runs :: Loses(shown, runs, i)) <==> !SurelyReadable(shown[i])
  {
    hide Listable, SurelyReadable, WellJudged, Decided, Hides, VerdictOf;
    HiddenExactlyWhen(shown[i]);
    forall runs | Loses(shown, runs, i) ensures !SurelyReadable(shown[i]) {
      VerdictFromMeaning(shown[i], runs[i]);
    }
    if !SurelyReadable(shown[i]) {
      var checks := FailingChecks(shown[i]);
      LosingRun(shown[i], checks);
      var runs := seq(|shown|, k requires 0 <= k < |shown| => if k == i then Probed(checks) else OwnRun(shown[k]));
      forall k | 0 <= k < |shown| ensures WellJudged(shown[k], runs[k]) && Decided(shown[k], runs[k]) {
        OwnRunIsWell(shown[k]);
      }
      assert Loses(shown, runs, i);
    }
  }

  lemma LosingRun(db: Database, checks: seq<Access>)
    requires Listable(db.name) && db.listing.Listed? && Hides(db, checks)
    ensures WellJudged(db, Probed(checks)) && Decided(db, Probed(checks)) && VerdictFrom(db, Probed(checks)) == Hidden
  {
  }

  /** Such databases exist: any number of objects, all readable, and ClickHouse may fail about each of them. */
  lemma ErrorsHideADatabase(names: seq<string>, g: Grant)
    requires names != [] && Ascending(names) && WellGranted(g) && AnyGranted(g) && g.broken
    ensures var db := Database("d", false, Listed, names, n => g);
            WellShown(db) && ReadableDatabase(db) && exists runs :: Loses([db], runs, 0)
  {
    hide Ascending, WellGranted, AnyGranted, Loses;
    var db := Database("d", false, Listed, names, n => g);
    assert CanRead(db, names[0]) && names[0] in db.objects;
    LostExactlyWhen([db], 0);
  }
}
