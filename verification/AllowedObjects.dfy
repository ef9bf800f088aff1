/** The index of the tables that an identity can read (AllowedObjectSet, src/allowed_objects.cpp): it answers like a
    scan for the last table that was added. */
module AllowedObjects {
  import opened Common
  import opened AclColumns

  const NUL: char := '\U{0}'

  /** A table that the index takes. */
  predicate Taken(t: AllowedTable) {
    t.database != "" && t.table != "" && (t.allColumns || t.partial || t.columns != {})
  }

  function TableKey(database: string, table: string): string {
    database + [NUL] + table
  }

  /** The names of databases hold no NUL. */
  predicate Clean(database: string) {
    NUL !in database
  }

  lemma TableKeyInjective(a: string, x: string, b: string, y: string)
    requires Clean(a) && Clean(b)
    ensures TableKey(a, x) == TableKey(b, y) <==> a == b && x == y
  {
    if TableKey(a, x) == TableKey(b, y) {
      SplitUnique(a, x, b, y, NUL);
    }
  }

  /** With a NUL in the name of a database two tables share one key. */
  lemma NulMixesTables()
    ensures TableKey("a", "b" + [NUL] + "c") == TableKey("a" + [NUL] + "b", "c")
  {
    assert "a" + [NUL] + ("b" + [NUL] + "c") == ("a" + [NUL] + "b") + [NUL] + "c";
  }

  /** The last table with these names among the added ones. */
  function LastWrite(added: seq<AllowedTable>, database: string, table: string): Option<AllowedTable> {
    if added == [] then None
    else
      var last := added[|added| - 1];
      if Names(last, database, table) then Some(last)
      else LastWrite(added[..|added| - 1], database, table)
  }

  /** The table has these names, and there is something of it that may be read: all its columns, some of them by name,
      or some that were not listed. A table without a name, or without any access, names nothing. */
  predicate Names(t: AllowedTable, database: string, table: string) {
    && t.database == database && t.table == table && database != "" && table != ""
    && (t.allColumns || t.partial || exists column :: column in t.columns)
  }

  lemma NamesWhatIsTaken(t: AllowedTable)
    ensures Taken(t) <==> Names(t, t.database, t.table)
    ensures forall d, x :: Names(t, d, x) ==> Taken(t) && t.database == d && t.table == x
  {
  }

  predicate SomeTable(added: seq<AllowedTable>, database: string) {
    exists i | 0 <= i < |added| :: Names(added[i], database, added[i].table)
  }

  /** Table i has these names, and no later one that was taken has them. */
  predicate NamedLast(added: seq<AllowedTable>, i: nat, database: string, table: string) {
    && i < |added| && Names(added[i], database, table)
    && forall k | i < k < |added| :: !Names(added[k], database, table)
  }

  /** The last write is a table that was added, and nothing of the same names was taken after it. */
  lemma {:induction false} LastWriteMeaning(added: seq<AllowedTable>, database: string, table: string)
    ensures LastWrite(added, database, table).Some? ==>
              exists i: nat ::
                NamedLast(added, i, database, table) && added[i] == LastWrite(added, database, table).value
    ensures LastWrite(added, database, table).None? ==> forall k | 0 <= k < |added| :: !Names(added[k], database, table)
  {
    if added != [] {
      hide Names;
      var last := |added| - 1;
      LastWriteMeaning(added[..last], database, table);
      if Names(added[last], database, table) {
        assert NamedLast(added, last, database, table);
      } else if LastWrite(added, database, table).Some? {
        var i: nat :| NamedLast(added[..last], i, database, table)
                      && added[..last][i] == LastWrite(added, database, table).value;
        NamedLastKept(added, i, database, table);
      } else {
        assert forall k | 0 <= k < last :: added[..last][k] == added[k];
      }
    }
  }

  lemma NamedLastKept(added: seq<AllowedTable>, i: nat, database: string, table: string)
    requires added != [] && !Names(added[|added| - 1], database, table)
    requires NamedLast(added[..|added| - 1], i, database, table)
    ensures NamedLast(added, i, database, table) && added[..|added| - 1][i] == added[i]
  {
    hide Names;
    forall k | i < k < |added| ensures !Names(added[k], database, table) {
      assert k < |added| - 1 ==> added[..|added| - 1][k] == added[k];
    }
  }

  // ---- the agreement of the index with what was added ----

  predicate TablesAgree(added: seq<AllowedTable>, tables: seq<AllowedTable>) {
    forall i | 0 <= i < |tables| ::
      Clean(tables[i].database) && LastWrite(added, tables[i].database, tables[i].table) == Some(tables[i])
  }

  predicate IndexAgrees(tables: seq<AllowedTable>, index: map<string, nat>) {
    && (forall i | 0 <= i < |tables| ::
          var key := TableKey(tables[i].database, tables[i].table); key in index && index[key] == i)
    && (forall key | key in index ::
          index[key] < |tables| && key == TableKey(tables[index[key]].database, tables[index[key]].table))
  }

  ghost predicate AllPresent(added: seq<AllowedTable>, tables: seq<AllowedTable>) {
    forall d, t | LastWrite(added, d, t).Some? ::
      exists i | 0 <= i < |tables| :: tables[i] == LastWrite(added, d, t).value
  }

  ghost predicate DatabasesAgree(added: seq<AllowedTable>, databases: seq<string>) {
    && (forall d :: d in databases <==> SomeTable(added, d))
    && (forall i, j | 0 <= i < j < |databases| :: databases[i] != databases[j])
  }

  lemma LastWriteNext(added: seq<AllowedTable>, next: AllowedTable, d: string, t: string)
    ensures LastWrite(added + [next], d, t) == if Names(next, d, t) then Some(next) else LastWrite(added, d, t)
  {
    assert (added + [next])[..|added|] == added;
  }

  lemma LastWriteNames(added: seq<AllowedTable>, d: string, t: string)
    requires LastWrite(added, d, t).Some?
    ensures LastWrite(added, d, t).value.database == d && LastWrite(added, d, t).value.table == t
  {
    LastWriteMeaning(added, d, t);
  }

  /** The tables after a new one of its names. */
  lemma TableAppended(added: seq<AllowedTable>, tables: seq<AllowedTable>, index: map<string, nat>, next: AllowedTable)
    requires TablesAgree(added, tables) && IndexAgrees(tables, index) && AllPresent(added, tables)
    requires Taken(next) && Clean(next.database) && TableKey(next.database, next.table) !in index
    ensures TablesAgree(added + [next], tables + [next])
    ensures IndexAgrees(tables + [next], index[TableKey(next.database, next.table) := |tables|])
    ensures AllPresent(added + [next], tables + [next])
  {
    NamesWhatIsTaken(next);
    hide LastWrite, TableKey, Taken, Clean, Names;
    var after := tables + [next];
    forall i | 0 <= i < |tables| ensures !Names(next, tables[i].database, tables[i].table) {
      TableKeyInjective(next.database, next.table, tables[i].database, tables[i].table);
    }
    forall i | 0 <= i < |after|
      ensures Clean(after[i].database) && LastWrite(added + [next], after[i].database, after[i].table) == Some(after[i])
    {
      LastWriteNext(added, next, after[i].database, after[i].table);
    }
    forall d, t | LastWrite(added + [next], d, t).Some?
      ensures exists i | 0 <= i < |after| :: after[i] == LastWrite(added + [next], d, t).value
    {
      LastWriteNext(added, next, d, t);
      if Names(next, d, t) {
        assert after[|tables|] == next;
      } else {
        var i :| 0 <= i < |tables| && tables[i] == LastWrite(added, d, t).value;
        assert after[i] == tables[i];
      }
    }
  }

  /** The tables after one of its names is replaced. */
  lemma TableReplaced(added: seq<AllowedTable>, tables: seq<AllowedTable>, index: map<string, nat>, next: AllowedTable)
    requires TablesAgree(added, tables) && IndexAgrees(tables, index) && AllPresent(added, tables)
    requires Taken(next) && Clean(next.database) && TableKey(next.database, next.table) in index
    ensures var k := index[TableKey(next.database, next.table)];
            && k < |tables|
            && TablesAgree(added + [next], tables[k := next])
            && IndexAgrees(tables[k := next], index)
            && AllPresent(added + [next], tables[k := next])
  {
    NamesWhatIsTaken(next);
    hide LastWrite, TableKey, Taken, Clean, Names;
    var k := index[TableKey(next.database, next.table)];
    var after := tables[k := next];
    TableKeyInjective(tables[k].database, tables[k].table, next.database, next.table);
    forall i | 0 <= i < |tables| && i != k ensures !Names(next, tables[i].database, tables[i].table) {
      TableKeyInjective(next.database, next.table, tables[i].database, tables[i].table);
    }
    forall i | 0 <= i < |after|
      ensures Clean(after[i].database) && LastWrite(added + [next], after[i].database, after[i].table) == Some(after[i])
    {
      LastWriteNext(added, next, after[i].database, after[i].table);
    }
    forall d, t | LastWrite(added + [next], d, t).Some?
      ensures exists i | 0 <= i < |after| :: after[i] == LastWrite(added + [next], d, t).value
    {
      LastWriteNext(added, next, d, t);
      if Names(next, d, t) {
        assert after[k] == next;
      } else {
        LastWriteNames(added, d, t);
        var i :| 0 <= i < |tables| && tables[i] == LastWrite(added, d, t).value;
        assert i != k && after[i] == tables[i];
      }
    }
  }

  lemma PresentIsIndexed(added: seq<AllowedTable>, tables: seq<AllowedTable>, index: map<string, nat>, d: string,
                         t: string)
    requires AllPresent(added, tables) && IndexAgrees(tables, index)
    ensures LastWrite(added, d, t).Some? ==> TableKey(d, t) in index
  {
    hide LastWrite, TableKey;
    if LastWrite(added, d, t).Some? {
      LastWriteNames(added, d, t);
      var i :| 0 <= i < |tables| && tables[i] == LastWrite(added, d, t).value;
    }
  }

  lemma SomeTableNext(added: seq<AllowedTable>, next: AllowedTable, d: string)
    ensures SomeTable(added + [next], d) <==> SomeTable(added, d) || (Taken(next) && next.database == d)
  {
    NamesWhatIsTaken(next);
    hide Taken, Names;
    var all := added + [next];
    if SomeTable(added, d) {
      var i :| 0 <= i < |added| && Names(added[i], d, added[i].table);
      assert all[i] == added[i];
    }
    assert all[|added|] == next;
  }

  /** A table that is not taken changes nothing. */
  lemma NotTaken(added: seq<AllowedTable>, tables: seq<AllowedTable>, databases: seq<string>, next: AllowedTable)
    requires TablesAgree(added, tables) && AllPresent(added, tables) && DatabasesAgree(added, databases) && !Taken(next)
    ensures TablesAgree(added + [next], tables) && AllPresent(added + [next], tables)
    ensures DatabasesAgree(added + [next], databases)
  {
    NamesWhatIsTaken(next);
    hide LastWrite, Taken, Clean, SomeTable, Names;
    forall d, t ensures LastWrite(added + [next], d, t) == LastWrite(added, d, t) {
      LastWriteNext(added, next, d, t);
    }
    forall d ensures SomeTable(added + [next], d) <==> SomeTable(added, d) {
      SomeTableNext(added, next, d);
    }
  }

  /** `added` is the history of the set. */
  class AllowedObjectSet {
    var databases: seq<string>
    var databaseIndex: set<string>
    var tables: seq<AllowedTable>
    var tableIndex: map<string, nat>
    ghost var added: seq<AllowedTable>

    ghost predicate Valid()
      reads this
    {
      && databaseIndex == (set d | d in databases)
      && DatabasesAgree(added, databases)
      && TablesAgree(added, tables) && AllPresent(added, tables) && IndexAgrees(tables, tableIndex)
    }

    constructor ()
      ensures Valid() && added == []
    {
      databases, databaseIndex, tables, tableIndex, added := [], {}, [], map[], [];
    }

    method AddTable(table: AllowedTable)
      requires Valid() && Clean(table.database)
      modifies this
      ensures Valid() && added == old(added) + [table]
    {
      hide LastWrite, TableKey, Clean, TablesAgree, AllPresent, IndexAgrees, SomeTable;
      if Taken(table) {
        AddDatabase(table);
        var key := TableKey(table.database, table.table);
        if key !in tableIndex {
          TableAppended(added, tables, tableIndex, table);
          tableIndex, tables := tableIndex[key := |tables|], tables + [table];
        } else {
          TableReplaced(added, tables, tableIndex, table);
          tables := tables[tableIndex[key] := table];
        }
      } else {
        NotTaken(added, tables, databases, table);
      }
      added := added + [table];
    }

    method AddDatabase(table: AllowedTable)
      requires databaseIndex == (set d | d in databases) && DatabasesAgree(added, databases) && Taken(table)
      modifies `databases, `databaseIndex
      ensures databaseIndex == (set d | d in databases) && DatabasesAgree(added + [table], databases)
    {
      hide SomeTable, Taken;
      forall d ensures SomeTable(added + [table], d) <==> SomeTable(added, d) || table.database == d {
        SomeTableNext(added, table, d);
      }
      if table.database !in databaseIndex {
        databaseIndex, databases := databaseIndex + {table.database}, databases + [table.database];
      }
    }

    method AllowsDatabase(database: string) returns (allowed: bool)
      requires Valid()
      ensures allowed <==> SomeTable(added, database)
    {
      allowed := database in databaseIndex;
    }

    /** The lookup of a table finds what the last write left. */
    method Lookup(database: string, table: string) returns (found: Option<AllowedTable>)
      requires Valid() && Clean(database)
      ensures found == LastWrite(added, database, table)
    {
      hide LastWrite, TableKey, Clean, DatabasesAgree;
      var key := TableKey(database, table);
      PresentIsIndexed(added, tables, tableIndex, database, table);
      found := None;
      if key in tableIndex {
        found := Some(tables[tableIndex[key]]);
        TableKeyInjective(found.value.database, found.value.table, database, table);
      }
    }

    method AllowsTable(database: string, table: string) returns (allowed: bool)
      requires Valid() && Clean(database)
      ensures allowed <==> LastWrite(added, database, table).Some?
    {
      var found := Lookup(database, table);
      allowed := found.Some?;
    }

    method AllowsColumnOf(database: string, table: string, column: string) returns (allowed: bool)
      requires Valid() && Clean(database)
      ensures allowed <==>
                && LastWrite(added, database, table).Some?
                && AllowsColumn(LastWrite(added, database, table).value, column)
    {
      var found := Lookup(database, table);
      allowed := found.Some? && AllowsColumn(found.value, column);
    }
  }
}
