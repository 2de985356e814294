/** What a whole run of the converter promises about the UPDATEs it emits. */
module ConditionTheorems {
  import opened ConditionTable
  import opened ConvertConditions

  // ---- the emitted ids

  /** Two rows share an id exactly when they ask for the same multiset of conditions. */
  lemma SameIdIffSameConditions(table: seq<Entry>, jobs: seq<Job>, updates: seq<Update>, k: nat, l: nat)
    requires Canonical(table) && AnsweredBy(table, jobs, updates)
    requires k < |jobs| && l < |jobs|
    ensures updates[k].conditionId == updates[l].conditionId <==> jobs[k].conditions == jobs[l].conditions
  {
    assert Answers(table, jobs[k], updates[k]) && Answers(table, jobs[l], updates[l]);
    assert Distinct(table, updates[k].conditionId, updates[l].conditionId);
  }

  /** Evaluating the emitted id is testing all of the row's conditions. */
  lemma IdMeansTheRow(table: seq<Entry>, jobs: seq<Job>, updates: seq<Update>, k: nat, truth: Condition -> bool)
    requires WellFormed(table) && AnsweredBy(table, jobs, updates) && k < |jobs|
    ensures 1 <= updates[k].conditionId < |table|
    ensures Eval(table, updates[k].conditionId, truth) <==> forall c :: c in jobs[k].conditions ==> truth(c)
  {
    assert Answers(table, jobs[k], updates[k]);
    EvalIsConjunction(table, updates[k].conditionId, truth);
  }

  // ---- every row with conditions is answered exactly once

  /** The rows of a table that have conditions at all. */
  function WantedTableJobs(database: string, table: string, rows: seq<Row>): seq<Job> {
    if rows == [] then []
    else
      var row := rows[|rows| - 1];
      WantedTableJobs(database, table, rows[..|rows| - 1])
      + if Positives(row.conditions) != multiset{} then [RowJob(database, table, row)] else []
  }

  /** The same for some of the tables of a database, in whatever order. */
  ghost function WantedIn(db: Database, names: set<string>): multiset<Job>
    requires names <= db.tables.Keys
  {
    if names == {} then multiset{}
    else
      var t :| t in names;
      multiset(WantedTableJobs(db.name, t, db.tables[t])) + WantedIn(db, names - {t})
  }

  /** One job for each row with conditions, in any table of the databases. */
  ghost function WantedJobs(databases: seq<Database>): multiset<Job> {
    if databases == [] then multiset{}
    else
      var db := databases[|databases| - 1];
      WantedJobs(databases[..|databases| - 1]) + WantedIn(db, db.tables.Keys)
  }

  lemma {:induction false} WantedInAnyOrder(db: Database, names: set<string>, t: string)
    requires names <= db.tables.Keys && t in names
    ensures WantedIn(db, names) == multiset(WantedTableJobs(db.name, t, db.tables[t])) + WantedIn(db, names - {t})
  {
    hide WantedTableJobs;
    var u :| u in names && WantedIn(db, names)
      == multiset(WantedTableJobs(db.name, u, db.tables[u])) + WantedIn(db, names - {u});
    if u != t {
      WantedInAnyOrder(db, names - {u}, t);
      WantedInAnyOrder(db, names - {t}, u);
      assert names - {u} - {t} == names - {t} - {u};
    }
  }

  lemma {:induction false} NothingWantedElsewhere(db: Database, names: set<string>, more: set<string>)
    requires names + more <= db.tables.Keys
    requires forall t, r :: t in more && r in db.tables[t] ==> r.conditions == []
    ensures WantedIn(db, names + more) == WantedIn(db, names)
    decreases more
  {
    hide WantedIn;
    if t :| t in more && t !in names {
      WantedInAnyOrder(db, names + more, t);
      assert names + more - {t} == names + (more - {t});
      NothingWantedElsewhere(db, names, more - {t});
      NothingWantedIn(db.name, t, db.tables[t]);
    } else {
      assert names + more == names;
    }
  }

  lemma {:induction false} NothingWantedIn(database: string, table: string, rows: seq<Row>)
    requires forall r :: r in rows ==> r.conditions == []
    ensures WantedTableJobs(database, table, rows) == []
  {
    if rows != [] {
      NothingWantedIn(database, table, rows[..|rows| - 1]);
    }
  }

  /** What three passes have answered together. */
  ghost function Together(a: seq<Job>, b: seq<Job>, c: seq<Job>): multiset<Job> {
    multiset(a + b + c)
  }

  lemma TogetherAppends(a: seq<Job>, b: seq<Job>, c: seq<Job>, x: seq<Job>, y: seq<Job>, z: seq<Job>)
    ensures Together(a + x, b + y, c + z) == Together(a, b, c) + Together(x, y, z)
  {
    assert multiset(a + x + (b + y) + (c + z))
        == multiset(a) + multiset(x) + (multiset(b) + multiset(y)) + (multiset(c) + multiset(z));
    assert multiset(a + b + c) == multiset(a) + multiset(b) + multiset(c);
    assert multiset(x + y + z) == multiset(x) + multiset(y) + multiset(z);
  }

  lemma {:induction false} PositivesBounded(cs: seq<Condition>)
    ensures |Positives(cs)| <= |cs|
  {
    if cs != [] {
      PositivesBounded(cs[1..]);
    }
  }

  /** A table whose rows have fewer conditions than the pass asks for has nothing to answer. */
  lemma {:induction false} NarrowTableHasNoJobs(database: string, table: string, rows: seq<Row>, pass: int)
    requires forall r :: r in rows ==> |r.conditions| < pass
    ensures TableJobs(database, table, rows, pass) == []
  {
    if rows != [] {
      NarrowTableHasNoJobs(database, table, rows[..|rows| - 1], pass);
      PositivesBounded(rows[|rows| - 1].conditions);
    }
  }

  lemma {:induction false} TableAnsweredOnce(database: string, table: string, rows: seq<Row>)
    requires forall r :: r in rows ==> |r.conditions| <= 3
    ensures Together(TableJobs(database, table, rows, 1), TableJobs(database, table, rows, 2),
              TableJobs(database, table, rows, 3)) == multiset(WantedTableJobs(database, table, rows))
  {
    if rows != [] {
      var row, front := rows[|rows| - 1], rows[..|rows| - 1];
      TableAnsweredOnce(database, table, front);
      RowAnsweredOnce(database, table, row);
      TogetherAppends(
        TableJobs(database, table, front, 1), TableJobs(database, table, front, 2), TableJobs(database, table, front, 3),
        RowJobs(database, table, row, 1), RowJobs(database, table, row, 2), RowJobs(database, table, row, 3));
    }
  }

  lemma RowAnsweredOnce(database: string, table: string, row: Row)
    requires |row.conditions| <= 3
    ensures Together(RowJobs(database, table, row, 1), RowJobs(database, table, row, 2), RowJobs(database, table, row, 3))
         == multiset(if Positives(row.conditions) != multiset{} then [RowJob(database, table, row)] else [])
  {
    hide Positives;
    PositivesBounded(row.conditions);
    var j := [RowJob(database, table, row)];
    assert j + [] + [] == [] + j + [] == [] + [] + j == j;
  }

  ghost function NamesOf(names: seq<string>): set<string> {
    set t | t in names
  }

  ghost predicate NoRepeats(names: seq<string>) {
    forall i, j :: 0 <= i < j < |names| ==> names[i] != names[j]
  }

  lemma NamesButLast(names: seq<string>)
    requires NoRepeats(names) && names != []
    ensures NoRepeats(names[..|names| - 1]) && names[|names| - 1] in NamesOf(names)
    ensures NamesOf(names[..|names| - 1]) == NamesOf(names) - {names[|names| - 1]}
  {
  }

  lemma {:induction false} TablesAnsweredOnce(db: Database, names: seq<string>)
    requires forall t :: t in names ==> t in db.tables
    requires NoRepeats(names)
    requires forall t, r :: t in names && r in db.tables[t] ==> |r.conditions| <= 3
    ensures Together(TablesJobs(db, names, 1), TablesJobs(db, names, 2), TablesJobs(db, names, 3))
         == WantedIn(db, NamesOf(names))
  {
    hide WantedTableJobs, TableJobs, NoRepeats;
    if names != [] {
      hide Together, NamesOf;
      assert NamesOf(names) <= db.tables.Keys by { NamesAreThere(db, names); }
      var t, front := names[|names| - 1], names[..|names| - 1];
      NamesButLast(names);
      TablesAnsweredOnce(db, front);
      WantedInAnyOrder(db, NamesOf(names), t);
      TableAnsweredOnce(db.name, t, db.tables[t]);
      TogetherAppends(
        TablesJobs(db, front, 1), TablesJobs(db, front, 2), TablesJobs(db, front, 3),
        TableJobs(db.name, t, db.tables[t], 1), TableJobs(db.name, t, db.tables[t], 2),
        TableJobs(db.name, t, db.tables[t], 3));
    }
  }

  lemma NamesAreThere(db: Database, names: seq<string>)
    requires forall t :: t in names ==> t in db.tables
    ensures NamesOf(names) <= db.tables.Keys
  {
  }

  lemma {:induction false} NarrowTablesHaveNoJobs(db: Database, names: seq<string>, more: seq<string>, pass: int)
    requires forall t :: t in names + more ==> t in db.tables
    requires forall t, r :: t in names && r in db.tables[t] ==> |r.conditions| < pass
    ensures TablesJobs(db, names + more, pass) == TablesJobs(db, more, pass)
  {
    if more != [] {
      var t := more[|more| - 1];
      assert (names + more)[..|names + more| - 1] == names + more[..|more| - 1];
      NarrowTablesHaveNoJobs(db, names, more[..|more| - 1], pass);
    } else if names != [] {
      var t := names[|names| - 1];
      assert names + more == names && names[..|names| - 1] + [] == names[..|names| - 1];
      NarrowTablesHaveNoJobs(db, names[..|names| - 1], [], pass);
      NarrowTableHasNoJobs(db.name, t, db.tables[t], pass);
    }
  }

  /** Leaving narrow tables out of the later passes loses nothing. */
  lemma ScansEnough(db: Database, loot: seq<string>, pass: int)
    requires 1 <= pass <= 3
    requires forall t :: t in loot + [GOSSIP_MENU] + [GOSSIP_MENU_OPTION] ==> t in db.tables
    requires forall t, r :: t in loot && r in db.tables[t] ==> |r.conditions| == 1
    requires forall r :: r in db.tables[GOSSIP_MENU] ==> |r.conditions| == 2
    ensures TablesJobs(db, (if pass <= 1 then loot else []) + (if pass < 3 then [GOSSIP_MENU] else [])
              + [GOSSIP_MENU_OPTION], pass)
         == TablesJobs(db, loot + [GOSSIP_MENU] + [GOSSIP_MENU_OPTION], pass)
  {
    var menu, option := [GOSSIP_MENU], [GOSSIP_MENU_OPTION];
    assert loot + menu + option == loot + (menu + option);
    if pass == 2 {
      NarrowTablesHaveNoJobs(db, loot, menu + option, pass);
      assert [] + menu + option == menu + option;
    } else if pass == 3 {
      NarrowTablesHaveNoJobs(db, loot, menu + option, pass);
      NarrowTablesHaveNoJobs(db, menu, option, pass);
      assert [] + [] + option == option;
    }
  }

  lemma DatabaseScansEnough(db: Database, pass: int)
    requires WellShaped(db) && 1 <= pass <= 3
    ensures forall t :: t in ScannedTables(db.expansion, 0) ==> t in db.tables
    ensures DatabaseJobs(db, pass) == TablesJobs(db, ScannedTables(db.expansion, 0), pass)
  {
    hide Columns, LootTables;
    var loot := LootTables(db.expansion);
    ScannedAreThere(db);
    LootTablesAreNarrow(db.expansion);
    assert ScannedTables(db.expansion, 0) == loot + [GOSSIP_MENU] + [GOSSIP_MENU_OPTION];
    ScansEnough(db, loot, pass);
  }

  lemma LootTablesAreNarrow(expansion: int)
    ensures forall t :: t in LootTables(expansion) ==> Columns(t, expansion) == 1
    ensures Columns(GOSSIP_MENU, expansion) == 2
  {
  }

  /** No table is scanned twice in a pass. */
  lemma ScannedOnce(expansion: int)
    ensures NoRepeats(ScannedTables(expansion, 0))
  {
  }

  lemma DatabaseAnsweredOnce(db: Database)
    requires WellShaped(db)
    ensures Together(DatabaseJobs(db, 1), DatabaseJobs(db, 2), DatabaseJobs(db, 3)) == WantedIn(db, db.tables.Keys)
  {
    hide Together, TablesJobs, WantedIn, Columns, ScannedTables, DatabaseJobs;
    var names := ScannedTables(db.expansion, 0);
    DatabaseScansEnough(db, 1);
    DatabaseScansEnough(db, 2);
    DatabaseScansEnough(db, 3);
    ScannedAreThere(db);
    ScannedOnce(db.expansion);
    TablesAnsweredOnce(db, names);
    var scanned := NamesOf(names);
    forall t, r | t in db.tables.Keys - scanned && r in db.tables[t] ensures r.conditions == [] {
      ScannedIffCarries(t, db.expansion);
    }
    NothingWantedElsewhere(db, scanned, db.tables.Keys - scanned);
    assert scanned + (db.tables.Keys - scanned) == db.tables.Keys;
  }

  lemma {:induction false} PassesAnswerOnce(databases: seq<Database>)
    requires forall db :: db in databases ==> WellShaped(db)
    ensures Together(PassJobs(databases, 1), PassJobs(databases, 2), PassJobs(databases, 3))
         == WantedJobs(databases)
  {
    if databases != [] {
      var db, front := databases[|databases| - 1], databases[..|databases| - 1];
      PassesAnswerOnce(front);
      DatabaseAnsweredOnce(db);
      TogetherAppends(
        PassJobs(front, 1), PassJobs(front, 2), PassJobs(front, 3),
        DatabaseJobs(db, 1), DatabaseJobs(db, 2), DatabaseJobs(db, 3));
    }
  }

  /** Over the whole run every row with conditions gets exactly one UPDATE, and no other row does. */
  lemma {:induction false} EveryRowAnsweredOnce(databases: seq<Database>)
    requires forall db :: db in databases ==> WellShaped(db)
    ensures multiset(JobsBefore(databases, 4)) == WantedJobs(databases)
  {
    assert JobsBefore(databases, 3) == JobsBefore(databases, 2) + PassJobs(databases, 2);
    assert JobsBefore(databases, 2) == PassJobs(databases, 1) by {
      assert JobsBefore(databases, 2) == JobsBefore(databases, 1) + PassJobs(databases, 1);
    }
    PassesAnswerOnce(databases);
  }

  // ---- what the table holds besides

  /** A row of any table of one of the databases. */
  ghost predicate IsRow(databases: seq<Database>, r: Row) {
    exists db, t :: db in databases && t in db.tables && r in db.tables[t]
  }

  lemma AskedByRow(databases: seq<Database>, m: multiset<Condition>) returns (r: Row)
    requires forall db :: db in databases ==> WellShaped(db)
    requires m in AskedAll(databases)
    ensures IsRow(databases, r) && Positives(r.conditions) == m && |m| <= 3
  {
    hide Columns;
    var db, t, row :| db in databases && t in db.tables && row in db.tables[t] && Positives(row.conditions) == m;
    r := row;
    PositivesBounded(r.conditions);
    AtMostThreeColumns(t, db.expansion);
  }

  /** After a run from the initial table no entry stands for anything but conditions some row has together;
      as entries are one to three conditions wide, an AND is a row's conditions or a pair out of a triple. */
  lemma EntriesAreAsked(table: seq<Entry>, databases: seq<Database>, i: int) returns (row: Row)
    requires forall db :: db in databases ==> WellShaped(db)
    requires NewAsked([Entry(0, 0, 0, 0)], table, AskedAll(databases)) && 1 <= i < |table|
    ensures IsRow(databases, row) && Leaves(table, i) <= Positives(row.conditions)
    ensures |Leaves(table, i)| == 1 || Leaves(table, i) == Positives(row.conditions)
      || (|Leaves(table, i)| == 2 && |Positives(row.conditions)| == 3)
  {
    hide IsRow, AskedAll, Positives, Leaves, WellShaped;
    assert AskedEntry(table, i, AskedAll(databases));
    var m :| m in AskedAll(databases) && Leaves(table, i) <= m;
    row := AskedByRow(databases, m);
    WidthIsSize(table, i);
    SubsetOfThree(Leaves(table, i), m);
  }

  lemma SubsetOfThree(a: multiset<Condition>, b: multiset<Condition>)
    requires a <= b && 1 <= |a| && |b| <= 3
    ensures |a| == 1 || a == b || (|a| == 2 && |b| == 3)
  {
    assert b == a + (b - a);
    assert |b| == |a| + |b - a|;
    if |b - a| == 0 {
      assert b - a == multiset{};
    }
  }

  lemma KnownConditionHasEntry(table: seq<Entry>, databases: seq<Database>, r: Row, c: Condition)
    requires DatabasesKnown(table, databases) && IsRow(databases, r) && c in Positives(r.conditions)
    ensures |table| > 1
  {
    var db, t :| db in databases && t in db.tables && r in db.tables[t];
    assert DatabaseKnown(table, db) && RowsKnown(table, db.tables[t]) && RowKnown(table, r);
    assert Known(table, multiset{c});
    var i :| Denotes(table, i, multiset{c});
  }

  /** The table stays empty, so that the initial entry is dumped, exactly when no row has a condition. */
  lemma TableIsEmptyIff(table: seq<Entry>, databases: seq<Database>)
    requires forall db :: db in databases ==> WellShaped(db)
    requires DatabasesKnown(table, databases) && NewAsked([Entry(0, 0, 0, 0)], table, AskedAll(databases))
    ensures |table| == 1 <==> forall r :: IsRow(databases, r) ==> Positives(r.conditions) == multiset{}
  {
    hide Positives, AskedAll;
    if |table| == 1 {
      forall r | IsRow(databases, r) ensures Positives(r.conditions) == multiset{} {
        if c :| c in Positives(r.conditions) {
          KnownConditionHasEntry(table, databases, r, c);
        }
      }
    } else {
      var row := EntriesAreAsked(table, databases, 1);
      WidthIsSize(table, 1);
    }
  }
}
