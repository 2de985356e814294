/** The converter of ConvertConditions.py: four passes over all tables that
    compile every row's conditions into one entry of the condition table. */
module ConvertConditions {
  import opened ConditionTable

  /** A row as selected: its two keys and one to three condition triples. */
  datatype Row = Row(key1: int, key2: int, conditions: seq<Condition>)

  datatype Database = Database(name: string, expansion: int, tables: map<string, seq<Row>>)

  /** One emitted UPDATE statement. */
  datatype Update = Update(database: string, table: string, key1: int, key2: int, conditionId: int)

  /** What an UPDATE answers: a row and the conditions it asks for. */
  datatype Job = Job(database: string, table: string, key1: int, key2: int, conditions: multiset<Condition>)

  /** The conditions a row really has: those of positive type. */
  function Positives(cs: seq<Condition>): multiset<Condition> {
    if cs == [] then multiset{}
    else (if cs[0].kind > 0 then multiset{cs[0]} else multiset{}) + Positives(cs[1..])
  }

  ghost predicate RowKnown(table: seq<Entry>, row: Row) {
    forall c :: c in Positives(row.conditions) ==> Known(table, multiset{c})
  }

  ghost predicate Answers(table: seq<Entry>, job: Job, u: Update) {
    && u.database == job.database && u.table == job.table && u.key1 == job.key1 && u.key2 == job.key2
    && Denotes(table, u.conditionId, job.conditions)
  }

  function RowJob(database: string, table: string, row: Row): Job {
    Job(database, table, row.key1, row.key2, Positives(row.conditions))
  }

  /** compareCondition: strictly greater, lexicographically. */
  predicate Greater(a: Condition, b: Condition) {
    || a.kind > b.kind
    || (a.kind == b.kind && (a.value1 > b.value1 || (a.value1 == b.value1 && a.value2 > b.value2)))
  }

  /** The kind decides first, then the first value, then the second; of two different conditions one is greater. */
  lemma GreaterIsLexicographic(a: Condition, b: Condition)
    ensures a.kind > b.kind ==> Greater(a, b)
    ensures a.kind == b.kind && a.value1 > b.value1 ==> Greater(a, b)
    ensures a.kind == b.kind && a.value1 == b.value1 && a.value2 > b.value2 ==> Greater(a, b)
    ensures !(Greater(a, b) && Greater(b, a)) && (a != b ==> Greater(a, b) || Greater(b, a))
  {
  }

  /** What the current pass has to do for one row: answer it if it has that many conditions. */
  function RowJobs(database: string, table: string, row: Row, pass: int): seq<Job> {
    if |Positives(row.conditions)| == pass then [RowJob(database, table, row)] else []
  }

  /** updates extends earlier by one answer for each of the jobs, in order. */
  ghost predicate AnsweredBy(table: seq<Entry>, jobs: seq<Job>, updates: seq<Update>) {
    |updates| == |jobs| && forall k :: 0 <= k < |jobs| ==> Answers(table, jobs[k], updates[k])
  }

  ghost predicate RowsKnown(table: seq<Entry>, rows: seq<Row>) {
    forall r :: r in rows ==> RowKnown(table, r)
  }

  function TableJobs(database: string, table: string, rows: seq<Row>, pass: int): seq<Job> {
    if rows == [] then []
    else TableJobs(database, table, rows[..|rows| - 1], pass) + RowJobs(database, table, rows[|rows| - 1], pass)
  }

  // ---- which tables are scanned, and in which pass

  function LootTables(expansion: int): seq<string> {
    ["reference_loot_template", "creature_loot_template", "gameobject_loot_template",
     "pickpocketing_loot_template", "item_loot_template", "fishing_loot_template",
     "skinning_loot_template", "disenchant_loot_template", "mail_loot_template"]
    + (if expansion >= 1 then ["prospecting_loot_template"] else [])
    + (if expansion >= 2 then ["spell_loot_template", "milling_loot_template"] else [])
  }

  const GOSSIP_MENU := "gossip_menu"
  const GOSSIP_MENU_OPTION := "gossip_menu_option"

  function ScannedTables(expansion: int, pass: int): seq<string> {
    (if pass <= 1 then LootTables(expansion) else [])
    + (if pass < 3 then [GOSSIP_MENU] else [])
    + [GOSSIP_MENU_OPTION]
  }

  // ---- which tables carry conditions

  /** How many conditions a row of a table holds. */
  const CONDITIONS_IN: map<string, nat> := map[
    "creature_loot_template" := 1, "disenchant_loot_template" := 1, "fishing_loot_template" := 1,
    "gameobject_loot_template" := 1, "item_loot_template" := 1, "mail_loot_template" := 1,
    "milling_loot_template" := 1, "pickpocketing_loot_template" := 1, "prospecting_loot_template" := 1,
    "reference_loot_template" := 1, "skinning_loot_template" := 1, "spell_loot_template" := 1,
    "gossip_menu" := 2, "gossip_menu_option" := 3
  ]

  /** Prospecting came with the first expansion, spell loot and milling with the second. */
  predicate InExpansion(table: string, expansion: int) {
    && (table == "prospecting_loot_template" ==> expansion >= 1)
    && (table == "spell_loot_template" || table == "milling_loot_template" ==> expansion >= 2)
  }

  /** How many conditions a row of a table holds in an expansion; tables without condition columns hold none. */
  function Columns(table: string, expansion: int): nat {
    if table in CONDITIONS_IN && InExpansion(table, expansion) then CONDITIONS_IN[table] else 0
  }

  /** The database has the tables of its expansion, with their columns. */
  ghost predicate WellShaped(db: Database) {
    && (forall t :: Columns(t, db.expansion) > 0 ==> t in db.tables)
    && (forall t, r :: t in db.tables && r in db.tables[t] ==> |r.conditions| == Columns(t, db.expansion))
  }

  /** Pass 0 scans a table exactly when it carries conditions. */
  lemma ScannedIffCarries(table: string, expansion: int)
    ensures table in ScannedTables(expansion, 0) <==> Columns(table, expansion) > 0
  {
  }

  lemma AtMostThreeColumns(table: string, expansion: int)
    ensures Columns(table, expansion) <= 3
  {
  }

  lemma ScannedAreThere(db: Database)
    requires WellShaped(db)
    ensures forall t :: t in ScannedTables(db.expansion, 0) ==> t in db.tables
    ensures forall t, r :: t in ScannedTables(db.expansion, 0) && r in db.tables[t] ==> 1 <= |r.conditions| <= 3
  {
    hide Columns, ScannedTables;
    forall t | t in ScannedTables(db.expansion, 0)
      ensures t in db.tables && forall r :: r in db.tables[t] ==> 1 <= |r.conditions| <= 3
    {
      ScannedIffCarries(t, db.expansion);
      AtMostThreeColumns(t, db.expansion);
    }
  }

  ghost predicate TablesKnown(table: seq<Entry>, db: Database, names: seq<string>)
    requires forall t :: t in names ==> t in db.tables
  {
    forall t :: t in names ==> RowsKnown(table, db.tables[t])
  }

  ghost predicate DatabaseKnown(table: seq<Entry>, db: Database) {
    forall t :: t in db.tables ==> RowsKnown(table, db.tables[t])
  }

  /** Where all scanned rows are known, all rows are: the others have no conditions. */
  lemma ScannedKnown(table: seq<Entry>, db: Database)
    requires WellShaped(db)
    requires forall t :: t in ScannedTables(db.expansion, 0) ==> t in db.tables
    requires TablesKnown(table, db, ScannedTables(db.expansion, 0))
    ensures DatabaseKnown(table, db)
  {
    hide Columns, ScannedTables, Known;
    forall t | t in db.tables ensures RowsKnown(table, db.tables[t]) {
      ScannedIffCarries(t, db.expansion);
    }
  }

  function TablesJobs(db: Database, names: seq<string>, pass: int): seq<Job>
    requires forall t :: t in names ==> t in db.tables
  {
    if names == [] then []
    else
      var t := names[|names| - 1];
      TablesJobs(db, names[..|names| - 1], pass) + TableJobs(db.name, t, db.tables[t], pass)
  }

  lemma LaterPassesScanLess(expansion: int, pass: int)
    ensures forall t :: t in ScannedTables(expansion, pass) ==> t in ScannedTables(expansion, 0)
  {
  }

  ghost function DatabaseJobs(db: Database, pass: int): seq<Job>
    requires WellShaped(db)
  {
    LaterPassesScanLess(db.expansion, pass);
    ScannedAreThere(db);
    TablesJobs(db, ScannedTables(db.expansion, pass), pass)
  }

  ghost predicate DatabasesKnown(table: seq<Entry>, databases: seq<Database>) {
    forall db :: db in databases ==> DatabaseKnown(table, db)
  }

  ghost function PassJobs(databases: seq<Database>, pass: int): seq<Job>
    requires forall db :: db in databases ==> WellShaped(db)
  {
    if databases == [] then []
    else PassJobs(databases[..|databases| - 1], pass) + DatabaseJobs(databases[|databases| - 1], pass)
  }

  /** What the passes before the given one have answered, in order; pass 0 answers nothing. */
  ghost function JobsBefore(databases: seq<Database>, pass: nat): seq<Job>
    requires forall db :: db in databases ==> WellShaped(db)
  {
    if pass <= 1 then [] else JobsBefore(databases, pass - 1) + PassJobs(databases, pass - 1)
  }

  // ---- what the rows ask for

  /** Each new entry stands for some of the conditions of one row that asks for them. */
  ghost predicate NewAsked(before: seq<Entry>, after: seq<Entry>, asked: set<multiset<Condition>>) {
    && WellFormed(after)
    && forall i :: 1 <= i < |after| && |before| <= i ==> AskedEntry(after, i, asked)
  }

  ghost predicate AskedEntry(table: seq<Entry>, i: int, asked: set<multiset<Condition>>)
    requires WellFormed(table) && 1 <= i < |table|
  {
    exists m :: m in asked && Leaves(table, i) <= m
  }

  lemma NewAskedTrans(
    a: seq<Entry>, b: seq<Entry>, c: seq<Entry>, x: set<multiset<Condition>>, y: set<multiset<Condition>>,
    all: set<multiset<Condition>>)
    requires b <= c && NewAsked(a, b, x) && NewAsked(b, c, y) && x <= all && y <= all
    ensures NewAsked(a, c, all)
  {
    forall i | 1 <= i < |c| && |a| <= i ensures AskedEntry(c, i, all) {
      if i < |b| {
        LeavesSurviveInserts(b, c, i);
        assert AskedEntry(b, i, x);
      } else {
        assert AskedEntry(c, i, y);
      }
    }
  }

  /** Fewer conditions of a row are asked for by the row. */
  lemma AskedByMore(before: seq<Entry>, after: seq<Entry>, m: multiset<Condition>, all: multiset<Condition>)
    requires NewAsked(before, after, {m}) && m <= all
    ensures NewAsked(before, after, {all})
  {
    forall i | 1 <= i < |after| && |before| <= i ensures AskedEntry(after, i, {all}) {
      assert AskedEntry(after, i, {m});
      assert all in {all};
    }
  }

  lemma NothingNew(table: seq<Entry>, asked: set<multiset<Condition>>)
    requires Canonical(table)
    ensures NewAsked(table, table, asked)
  {
  }

  lemma OneNew(before: seq<Entry>, e: Entry, m: multiset<Condition>)
    requires WellFormed(before + [e]) && Denotes(before + [e], |before|, m)
    ensures NewAsked(before, before + [e], {m})
  {
    assert m in {m};
  }

  function AskedRows(rows: seq<Row>): set<multiset<Condition>> {
    set r | r in rows :: Positives(r.conditions)
  }

  function AskedTables(db: Database, names: seq<string>): set<multiset<Condition>>
    requires forall t :: t in names ==> t in db.tables
  {
    set t, r | t in names && r in db.tables[t] :: Positives(r.conditions)
  }

  ghost function AskedAll(databases: seq<Database>): set<multiset<Condition>> {
    set db, t, r | db in databases && t in db.tables && r in db.tables[t] :: Positives(r.conditions)
  }

  lemma OneIsAsked(databases: seq<Database>, i: nat)
    requires i < |databases|
    ensures AskedAll([databases[i]]) <= AskedAll(databases)
  {
  }

  lemma ListedAreAsked(databases: seq<Database>, i: nat, names: seq<string>)
    requires i < |databases| && forall t :: t in names ==> t in databases[i].tables
    ensures AskedTables(databases[i], names) <= AskedAll(databases)
  {
  }

  // ---- what survives later inserts

  lemma KnownSurvivesInserts(before: seq<Entry>, after: seq<Entry>, m: multiset<Condition>)
    requires WellFormed(before) && WellFormed(after) && before <= after && Known(before, m)
    ensures Known(after, m)
  {
    var i :| Denotes(before, i, m);
    DenotesSurvivesInserts(before, after, i, m);
  }

  lemma RowsStayKnown(before: seq<Entry>, after: seq<Entry>, rows: seq<Row>)
    requires WellFormed(before) && WellFormed(after) && before <= after && RowsKnown(before, rows)
    ensures RowsKnown(after, rows)
  {
    forall r, c | r in rows && c in Positives(r.conditions) ensures Known(after, multiset{c}) {
      assert RowKnown(before, r);
      KnownSurvivesInserts(before, after, multiset{c});
    }
  }

  lemma TablesStayKnown(before: seq<Entry>, after: seq<Entry>, db: Database, names: seq<string>)
    requires WellFormed(before) && WellFormed(after) && before <= after
    requires forall t :: t in names ==> t in db.tables
    requires TablesKnown(before, db, names)
    ensures TablesKnown(after, db, names)
  {
    forall t | t in names ensures RowsKnown(after, db.tables[t]) {
      RowsStayKnown(before, after, db.tables[t]);
    }
  }

  lemma DatabasesStayKnown(before: seq<Entry>, after: seq<Entry>, databases: seq<Database>)
    requires WellFormed(before) && WellFormed(after) && before <= after
    requires DatabasesKnown(before, databases)
    ensures DatabasesKnown(after, databases)
  {
    forall db, t | db in databases && t in db.tables ensures RowsKnown(after, db.tables[t]) {
      assert DatabaseKnown(before, db);
      RowsStayKnown(before, after, db.tables[t]);
    }
  }

  lemma AnswersSurviveInserts(before: seq<Entry>, after: seq<Entry>, jobs: seq<Job>, updates: seq<Update>)
    requires WellFormed(before) && WellFormed(after) && before <= after && AnsweredBy(before, jobs, updates)
    ensures AnsweredBy(after, jobs, updates)
  {
    forall k | 0 <= k < |jobs| ensures Answers(after, jobs[k], updates[k]) {
      DenotesSurvivesInserts(before, after, updates[k].conditionId, jobs[k].conditions);
    }
  }

  lemma AnswersConcatenate(
    before: seq<Entry>, after: seq<Entry>, start: nat, middle: seq<Update>, end: seq<Update>,
    jobs: seq<Job>, more: seq<Job>)
    requires WellFormed(before) && WellFormed(after) && before <= after
    requires start <= |middle| && middle <= end
    requires AnsweredBy(before, jobs, middle[start..]) && AnsweredBy(after, more, end[|middle|..])
    ensures AnsweredBy(after, jobs + more, end[start..])
  {
    AnswersSurviveInserts(before, after, jobs, middle[start..]);
    assert end[start..] == middle[start..] + end[|middle|..];
  }

  function Positive(c: Condition): multiset<Condition> {
    if c.kind > 0 then multiset{c} else multiset{}
  }

  lemma PositivesOfPadded(cs: seq<Condition>, c1: Condition, c2: Condition, c3: Condition)
    requires 1 <= |cs| <= 3 && c1 == cs[0]
    requires if |cs| >= 2 then c2 == cs[1] else c2.kind == 0
    requires if |cs| >= 3 then c3 == cs[2] else c3.kind == 0
    ensures Positives(cs) == Positive(c1) + Positive(c2) + Positive(c3)
  {
    assert Positives([]) == multiset{};
    if |cs| == 1 {
      assert cs[1..] == [];
    } else if |cs| == 2 {
      assert cs[1..] == [c2] && [c2][1..] == [];
      assert Positives([c2]) == Positive(c2);
    } else {
      assert cs[1..] == [c2, c3] && [c2, c3][1..] == [c3] && [c3][1..] == [];
      assert Positives([c3]) == Positive(c3);
      assert Positives([c2, c3]) == Positive(c2) + Positive(c3);
    }
  }

  function FirstOfThree(c1: Condition, c2: Condition, c3: Condition, n: nat): (cs: seq<Condition>)
    ensures |cs| <= 3
  {
    if n == 0 then [] else if n == 1 then [c1] else if n == 2 then [c1, c2] else [c1, c2, c3]
  }

  function CountPositive(c: Condition): nat {
    if c.kind > 0 then 1 else 0
  }

  lemma OneAsSequence(c: Condition)
    ensures multiset([c]) == multiset{c}
    ensures multiset{c} + multiset{} == multiset{c}
  {
  }

  lemma TwoAsSequence(c1: Condition, c2: Condition)
    ensures multiset([c1, c2]) == multiset{c1} + multiset{c2}
    ensures multiset{c1} + multiset{c2} + multiset{} == multiset{c1} + multiset{c2}
  {
  }

  lemma ThreeAsSequence(c1: Condition, c2: Condition, c3: Condition)
    ensures multiset([c1, c2, c3]) == multiset{c1} + multiset{c2} + multiset{c3}
  {
  }

  lemma NoneAsSequence(none: seq<Condition>)
    requires none == []
    ensures multiset{} + multiset{} + multiset{} == multiset(none)
  {
  }

  lemma PositivesComeFirst(c1: Condition, c2: Condition, c3: Condition)
    requires c3.kind > 0 ==> c2.kind > 0
    requires c2.kind > 0 ==> c1.kind > 0
    ensures var cs := FirstOfThree(c1, c2, c3, CountPositive(c1) + CountPositive(c2) + CountPositive(c3));
      Positive(c1) + Positive(c2) + Positive(c3) == multiset(cs) && forall c :: c in cs ==> c.kind > 0
  {
    if c1.kind <= 0 {
      NoneAsSequence([]);
    } else if c2.kind <= 0 {
      OneAsSequence(c1);
    } else if c3.kind <= 0 {
      TwoAsSequence(c1, c2);
    } else {
      ThreeAsSequence(c1, c2, c3);
    }
  }

  class Converter {
    var linkedList: seq<Entry>
    var oldMax: int
    var database: string
    var processNumConditions: int
    var fUpdates: seq<Update>
    /** How often the "An error happened for" branch was taken. */
    var errors: nat

    ghost predicate Valid()
      reads this
    {
      Canonical(linkedList) && |linkedList| == oldMax + 1
    }

    constructor ()
      ensures Valid() && linkedList == [Entry(0, 0, 0, 0)] && fUpdates == [] && errors == 0
    {
      linkedList := [Entry(0, 0, 0, 0)];
      oldMax := 0;
      database := "";
      processNumConditions := 0;
      fUpdates := [];
      errors := 0;
    }

    method InsertCondition(kind: int, value1: int, value2: int, ghost m: multiset<Condition>)
      requires Valid()
      requires EntryOk(Entry(oldMax + 1, kind, value1, value2), |linkedList|)
      requires if kind > 0 then m == multiset{Condition(kind, value1, value2)}
               else m == Leaves(linkedList, value1) + Leaves(linkedList, value2)
      requires |m| <= 3 && !Known(linkedList, m)
      modifies this`linkedList, this`oldMax
      ensures Valid() && oldMax == old(oldMax) + 1
      ensures linkedList == old(linkedList) + [Entry(oldMax, kind, value1, value2)]
      ensures Denotes(linkedList, oldMax, m) && NewAsked(old(linkedList), linkedList, {m})
    {
      InsertKeepsCanonical(linkedList, Entry(oldMax + 1, kind, value1, value2), m);
      oldMax := oldMax + 1;
      linkedList := linkedList + [Entry(oldMax, kind, value1, value2)];
      OneNew(old(linkedList), Entry(oldMax, kind, value1, value2), m);
    }

    method FindCondition(kind: int, value1: int, value2: int) returns (r: nat)
      requires Valid() && kind != 0
      ensures IsFound(linkedList, kind, value1, value2, r)
    {
      for i := 0 to |linkedList|
        invariant forall k :: 0 <= k < i ==> !Matches(linkedList[k], kind, value1, value2)
      {
        assert EntryOk(linkedList[i], i);
        if Matches(linkedList[i], kind, value1, value2) {
          return linkedList[i].id;
        }
      }
      return 0;
    }

    method FindLeaf(c: Condition) returns (r: nat)
      requires Valid() && c.kind > 0
      ensures IsEntryFor(linkedList, multiset{c}, r)
    {
      r := FindCondition(c.kind, c.value1, c.value2);
      FoundLeafIsEntry(linkedList, c, r);
    }

    /** The source always looks an AND up in one order and then in the other. */
    method FindEither(x: int, y: int) returns (r: nat)
      requires Valid()
      ensures IsFoundEither(linkedList, x, y, r)
    {
      r := FindCondition(AND, x, y);
      if r == 0 {
        r := FindCondition(AND, y, x);
      }
    }

    /** Pass 0 for one condition: insert its leaf unless it is there. */
    method InsertLeafIfMissing(c: Condition)
      requires Valid() && c.kind > 0
      modifies this`linkedList, this`oldMax
      ensures Valid() && old(linkedList) <= linkedList
      ensures Known(linkedList, multiset{c}) && NewAsked(old(linkedList), linkedList, {multiset{c}})
    {
      var r := FindLeaf(c);
      if r == 0 {
        InsertCondition(c.kind, c.value1, c.value2, multiset{c});
      }
    }

    /** The entry for two conditions, inserted if there is none. */
    method TwoVector(founds: seq<nat>, ghost cs: seq<Condition>) returns (lastPoint: nat)
      requires Valid() && |cs| == |founds| == 2
      requires LeavesFound(linkedList, founds, cs)
      modifies this`linkedList, this`oldMax
      ensures Valid() && old(linkedList) <= linkedList
      ensures Denotes(linkedList, lastPoint, multiset(cs))
      ensures linkedList == old(linkedList)
        || linkedList == old(linkedList) + [Entry(|old(linkedList)|, -1, founds[1], founds[0])]
      ensures NewAsked(old(linkedList), linkedList, {multiset(cs)})
    {
      ghost var m := multiset{cs[1]} + multiset{cs[0]};
      assert cs == [cs[0], cs[1]];
      lastPoint := FindEither(founds[1], founds[0]);
      FoundPairIsEntry(linkedList, founds[1], founds[0], cs[1], cs[0], lastPoint);
      if lastPoint == 0 {
        InsertCondition(AND, founds[1], founds[0], m);
        lastPoint := oldMax;
      }
    }

    /** The entry for three conditions: reuse any pair already there. */
    method ThreeVector(founds: seq<nat>, ghost cs: seq<Condition>) returns (lastPoint: nat)
      requires Valid() && |cs| == 3 && LeavesFound(linkedList, founds, cs)
      modifies this`linkedList, this`oldMax
      ensures Valid() && old(linkedList) <= linkedList
      ensures Denotes(linkedList, lastPoint, multiset(cs))
      ensures NewAsked(old(linkedList), linkedList, {multiset(cs)})
    {
      ghost var ps := [
        multiset{cs[1]} + multiset{cs[2]}, multiset{cs[0]} + multiset{cs[2]}, multiset{cs[0]} + multiset{cs[1]}];
      ThreePairsBeside(cs);
      var notSearched := PairsBeside(founds, cs, ps);
      lastPoint := FindTriple(founds, notSearched, cs, ps);
      if lastPoint == 0 {
        ghost var before := linkedList;
        lastPoint := InsertTriple(founds, notSearched, cs, ps);
        NewAskedTrans(old(linkedList), before, linkedList, {multiset(cs)}, {multiset(cs)}, {multiset(cs)});
      }
    }

    /** Looks the pair beside each of three leaves up. */
    method LookUpPairs(founds: seq<nat>, ghost cs: seq<Condition>, ghost ps: seq<multiset<Condition>>)
      returns (notSearched: seq<nat>)
      requires Valid() && Triple(linkedList, cs, ps, founds)
      requires ps[0] == multiset{cs[1]} + multiset{cs[2]}
      requires ps[1] == multiset{cs[0]} + multiset{cs[2]}
      requires ps[2] == multiset{cs[0]} + multiset{cs[1]}
      ensures PairsLookedUp(linkedList, ps, notSearched)
    {
      var n2 := FindEither(founds[0], founds[1]);
      FoundPairIsEntry(linkedList, founds[0], founds[1], cs[0], cs[1], n2);
      var n1 := FindEither(founds[0], founds[2]);
      FoundPairIsEntry(linkedList, founds[0], founds[2], cs[0], cs[2], n1);
      var n0 := FindEither(founds[1], founds[2]);
      FoundPairIsEntry(linkedList, founds[1], founds[2], cs[1], cs[2], n0);
      notSearched := [n0, n1, n2];
    }

    /** The entries of the pairs beside each of three leaves; one is inserted if all are missing. */
    method PairsBeside(founds: seq<nat>, ghost cs: seq<Condition>, ghost ps: seq<multiset<Condition>>)
      returns (notSearched: seq<nat>)
      requires Valid() && Triple(linkedList, cs, ps, founds)
      requires ps[0] == multiset{cs[1]} + multiset{cs[2]}
      requires ps[1] == multiset{cs[0]} + multiset{cs[2]}
      requires ps[2] == multiset{cs[0]} + multiset{cs[1]}
      modifies this`linkedList, this`oldMax
      ensures Valid() && old(linkedList) <= linkedList && Triple(linkedList, cs, ps, founds)
      ensures PairsFound(linkedList, ps, notSearched)
      ensures Known(linkedList, multiset(cs)) ==> PairsLookedUp(linkedList, ps, notSearched)
      ensures NewAsked(old(linkedList), linkedList, {multiset(cs)})
    {
      hide Canonical, Known, NewAsked, Triple, PairsLookedUp, PairsFound;
      notSearched := LookUpPairs(founds, cs, ps);
      LookedUpPairs(linkedList, ps, notSearched);
      if notSearched == [0, 0, 0] {
        InsertPair(founds, notSearched, cs, ps);
        notSearched := notSearched[0 := oldMax];
        assert notSearched == [oldMax, 0, 0];
      } else {
        NothingNew(linkedList, {multiset(cs)});
      }
    }

    /** None of the three pairs is there: the one beside the first leaf is inserted. */
    method InsertPair(
      founds: seq<nat>, notSearched: seq<nat>, ghost cs: seq<Condition>, ghost ps: seq<multiset<Condition>>)
      requires Valid() && Triple(linkedList, cs, ps, founds) && ps[0] == multiset{cs[1]} + multiset{cs[2]}
      requires PairsLookedUp(linkedList, ps, notSearched) && notSearched == [0, 0, 0]
      modifies this`linkedList, this`oldMax
      ensures Valid() && old(linkedList) <= linkedList && Triple(linkedList, cs, ps, founds)
      ensures oldMax > 0 && PairsFound(linkedList, ps, [oldMax, 0, 0]) && !Known(linkedList, multiset(cs))
      ensures linkedList == old(linkedList) + [Entry(|old(linkedList)|, -1, founds[1], founds[2])]
      ensures NewAsked(old(linkedList), linkedList, {multiset(cs)})
    {
      hide Canonical, Known, NewAsked, Triple, Denotes, EntryOk, PairsLookedUp, PairsFound;
      ghost var before := linkedList;
      PairIsMissing(before, cs, ps, founds, notSearched);
      InsertCondition(AND, founds[1], founds[2], ps[0]);
      PairInserted(before, Entry(oldMax, AND, founds[1], founds[2]), cs, ps, founds);
    }

    /** Looks the three splits of a triple up in turn. */
    method FindTriple(
      founds: seq<nat>, notSearched: seq<nat>, ghost cs: seq<Condition>, ghost ps: seq<multiset<Condition>>)
      returns (lastPoint: nat)
      requires Valid() && Triple(linkedList, cs, ps, founds) && PairsFound(linkedList, ps, notSearched)
      requires Known(linkedList, multiset(cs)) ==> PairsLookedUp(linkedList, ps, notSearched)
      ensures IsEntryFor(linkedList, multiset(cs), lastPoint)
    {
      hide Canonical, Known, Denotes, EntryOk, IsFoundEither, Triple, PairsFound, PairsLookedUp;
      assert |founds| == |notSearched| == 3 by { ThreeOfEach(linkedList, cs, ps, founds, notSearched); }
      lastPoint := 0;
      for i := 0 to 3
        invariant lastPoint == 0
        invariant forall k :: 0 <= k < i ==> notSearched[k] == 0 || IsFoundEither(linkedList, notSearched[k], founds[k], 0)
      {
        if notSearched[i] > 0 {
          lastPoint := FindEither(notSearched[i], founds[i]);
          if lastPoint > 0 {
            TripleFound(linkedList, cs, ps, founds, notSearched, i, lastPoint);
            return;
          }
        }
      }
      if Known(linkedList, multiset(cs)) {
        MissingTriple(linkedList, cs, ps, founds, notSearched);
      }
    }

    /** Appends the AND of the first pair there is and the leaf beside it. */
    method InsertTriple(
      founds: seq<nat>, notSearched: seq<nat>, ghost cs: seq<Condition>, ghost ps: seq<multiset<Condition>>)
      returns (lastPoint: nat)
      requires Valid() && Triple(linkedList, cs, ps, founds) && PairsFound(linkedList, ps, notSearched)
      requires !Known(linkedList, multiset(cs))
      modifies this`linkedList, this`oldMax
      ensures Valid() && old(linkedList) <= linkedList
      ensures Denotes(linkedList, lastPoint, multiset(cs))
      ensures exists i :: 0 <= i < 3 && TripleAdded(old(linkedList), linkedList, founds, notSearched, i)
      ensures NewAsked(old(linkedList), linkedList, {multiset(cs)})
    {
      hide Triple, PairsFound, Denotes, EntryOk, Known, Canonical, NewAsked, WellFormed;
      assert |founds| == |notSearched| == 3 by { ThreeOfEach(linkedList, cs, ps, founds, notSearched); }
      assert notSearched != [0, 0, 0] by { SomePair(linkedList, ps, notSearched); }
      ghost var before := linkedList;
      lastPoint := 0;
      for i := 0 to 3
        invariant linkedList == before && oldMax == |before| - 1
        invariant forall k :: 0 <= k < i ==> notSearched[k] == 0
      {
        if notSearched[i] > 0 {
          TripleFits(linkedList, cs, ps, founds, notSearched, i);
          InsertCondition(AND, founds[i], notSearched[i], multiset(cs));
          assert TripleAdded(before, linkedList, founds, notSearched, i);
          return oldMax;
        }
      }
    }

    /** Sorts a row downwards; what it does not select counts as zero. */
    method OrderConditions(cs: seq<Condition>) returns (c1: Condition, c2: Condition, c3: Condition)
      requires 1 <= |cs| <= 3
      ensures Positives(cs) == Positive(c1) + Positive(c2) + Positive(c3)
      ensures c3.kind > 0 ==> c2.kind > 0
      ensures c2.kind > 0 ==> c1.kind > 0
      ensures |cs| >= 2 ==> !Greater(c2, c1)
      ensures |cs| >= 3 ==> !Greater(c3, c2)
    {
      hide Positives, Positive;
      var zero := Condition(0, 0, 0);
      c1, c2, c3 := cs[0], if |cs| >= 2 then cs[1] else zero, if |cs| >= 3 then cs[2] else zero;
      PositivesOfPadded(cs, c1, c2, c3);
      if |cs| >= 2 && Greater(c2, c1) {
        c1, c2 := c2, c1;
      }
      if |cs| >= 3 {
        if Greater(c3, c2) {
          c2, c3 := c3, c2;
        }
        if Greater(c2, c1) {
          c1, c2 := c2, c1;
        }
      }
    }

    /** The number of positive conditions. */
    method RowConditionNumber(c1: Condition, c2: Condition, c3: Condition) returns (n: nat)
      ensures n == CountPositive(c1) + CountPositive(c2) + CountPositive(c3)
    {
      n := 0;
      if c1.kind > 0 {
        n := n + 1;
      }
      if c2.kind > 0 {
        n := n + 1;
      }
      if c3.kind > 0 {
        n := n + 1;
      }
    }

    /** The positive conditions of a row, ordered. */
    method RowConditions(row: Row) returns (cs: seq<Condition>)
      requires 1 <= |row.conditions| <= 3
      ensures |cs| <= 3 && Positives(row.conditions) == multiset(cs)
      ensures forall c :: c in cs ==> c.kind > 0
    {
      var c1, c2, c3 := OrderConditions(row.conditions);
      var rowConditionNumber := RowConditionNumber(c1, c2, c3);
      cs := FirstOfThree(c1, c2, c3, rowConditionNumber);
      PositivesComeFirst(c1, c2, c3);
    }

    /** Looks the leaves of a row up; the result is 0 where there is none. */
    method FindLeaves(cs: seq<Condition>) returns (founds: seq<nat>, countFound: nat)
      requires Valid() && forall c :: c in cs ==> c.kind > 0
      ensures countFound == |cs| ==> LeavesFound(linkedList, founds, cs)
      ensures countFound == |cs| <==> forall c :: c in cs ==> Known(linkedList, multiset{c})
    {
      founds, countFound := [], 0;
      for i := 0 to |cs|
        invariant |founds| == i && countFound <= i
        invariant countFound == i ==> LeavesFound(linkedList, founds, cs[..i])
        invariant countFound == i <==> forall k :: 0 <= k < i ==> Known(linkedList, multiset{cs[k]})
      {
        var r := FindLeaf(cs[i]);
        founds := founds + [r];
        if r > 0 {
          countFound := countFound + 1;
        }
      }
      assert cs[..|cs|] == cs;
    }

    /** The entry for one, two or three conditions whose leaves have been found. */
    method EntryFor(founds: seq<nat>, ghost cs: seq<Condition>) returns (lastPoint: nat)
      requires Valid() && 1 <= |cs| <= 3 && LeavesFound(linkedList, founds, cs)
      modifies this`linkedList, this`oldMax
      ensures Valid() && old(linkedList) <= linkedList
      ensures Denotes(linkedList, lastPoint, multiset(cs))
      ensures NewAsked(old(linkedList), linkedList, {multiset(cs)})
    {
      if |founds| == 3 {
        lastPoint := ThreeVector(founds, cs);
      } else if |founds| == 2 {
        lastPoint := TwoVector(founds, cs);
      } else {
        assert cs == [cs[0]];
        lastPoint := founds[0];
      }
    }

    /** One row of a table in the current pass. */
    method ProgressRow(tableName: string, row: Row)
      requires Valid() && 1 <= |row.conditions| <= 3 && 0 <= processNumConditions <= 3
      modifies this`linkedList, this`oldMax, this`fUpdates, this`errors
      ensures Valid() && old(linkedList) <= linkedList && old(fUpdates) <= fUpdates
      ensures NewAsked(old(linkedList), linkedList, {Positives(row.conditions)})
      ensures processNumConditions == 0 ==>
        RowKnown(linkedList, row) && fUpdates == old(fUpdates) && errors == old(errors)
      ensures processNumConditions > 0 && RowKnown(old(linkedList), row) ==>
        && errors == old(errors)
        && AnsweredBy(linkedList, RowJobs(database, tableName, row, processNumConditions), fUpdates[|old(fUpdates)|..])
      ensures processNumConditions > 0 && !RowKnown(old(linkedList), row) ==>
        && linkedList == old(linkedList) && fUpdates == old(fUpdates)
        && errors == old(errors) + |RowJobs(database, tableName, row, processNumConditions)|
    {
      hide Canonical, Known, NewAsked, Positives, LeavesFound, Denotes;
      NothingNew(linkedList, {Positives(row.conditions)});
      var cs := RowConditions(row);
      var rowConditionNumber := |cs|;
      assert |Positives(row.conditions)| == rowConditionNumber;
      assert forall c :: c in Positives(row.conditions) <==> c in cs;
      if rowConditionNumber == 0 {
        return;
      }
      if processNumConditions == 0 {
        InsertLeaves(cs);
        return;
      }
      if processNumConditions != rowConditionNumber {
        return;
      }
      var founds, countFound := FindLeaves(cs);
      if countFound != rowConditionNumber {
        errors := errors + 1;
        return;
      }
      var lastPoint := EntryFor(founds, cs);
      var update := Update(database, tableName, row.key1, row.key2, lastPoint);
      fUpdates := fUpdates + [update];
      assert fUpdates[|old(fUpdates)|..] == [update];
    }

    /** Pass 0: every condition of the row gets a leaf. */
    method InsertLeaves(cs: seq<Condition>)
      requires Valid() && forall c :: c in cs ==> c.kind > 0
      modifies this`linkedList, this`oldMax
      ensures Valid() && old(linkedList) <= linkedList
      ensures forall c :: c in cs ==> Known(linkedList, multiset{c})
      ensures NewAsked(old(linkedList), linkedList, {multiset(cs)})
    {
      hide NewAsked, WellFormed, Width, Distinct, Known;
      NothingNew(linkedList, {multiset(cs)});
      for i := 0 to |cs|
        invariant Valid() && old(linkedList) <= linkedList
        invariant NewAsked(old(linkedList), linkedList, {multiset(cs)})
        invariant forall k :: 0 <= k < i ==> Known(linkedList, multiset{cs[k]})
      {
        ghost var before := linkedList;
        InsertLeafIfMissing(cs[i]);
        AskedByMore(before, linkedList, multiset{cs[i]}, multiset(cs));
        NewAskedTrans(old(linkedList), before, linkedList, {multiset(cs)}, {multiset(cs)}, {multiset(cs)});
        forall k | 0 <= k < i ensures Known(linkedList, multiset{cs[k]}) {
          KnownSurvivesInserts(before, linkedList, multiset{cs[k]});
        }
      }
    }

    /** One SELECTed table in the current pass. */
    method ProgressTable(tableName: string, rows: seq<Row>)
      requires Valid() && 0 <= processNumConditions <= 3
      requires forall r :: r in rows ==> 1 <= |r.conditions| <= 3
      modifies this`linkedList, this`oldMax, this`fUpdates, this`errors
      ensures Valid() && old(linkedList) <= linkedList && old(fUpdates) <= fUpdates
      ensures NewAsked(old(linkedList), linkedList, AskedRows(rows))
      ensures processNumConditions == 0 ==>
        RowsKnown(linkedList, rows) && fUpdates == old(fUpdates) && errors == old(errors)
      ensures processNumConditions > 0 && RowsKnown(old(linkedList), rows) ==>
        && errors == old(errors)
        && AnsweredBy(linkedList, TableJobs(database, tableName, rows, processNumConditions), fUpdates[|old(fUpdates)|..])
    {
      hide NewAsked, WellFormed, Width, Distinct, Known;
      NothingNew(linkedList, AskedRows(rows));
      for i := 0 to |rows|
        invariant Valid() && old(linkedList) <= linkedList && old(fUpdates) <= fUpdates
        invariant NewAsked(old(linkedList), linkedList, AskedRows(rows))
        invariant processNumConditions == 0 ==>
          RowsKnown(linkedList, rows[..i]) && fUpdates == old(fUpdates) && errors == old(errors)
        invariant processNumConditions > 0 && RowsKnown(old(linkedList), rows) ==>
          && errors == old(errors)
          && AnsweredBy(linkedList, TableJobs(database, tableName, rows[..i], processNumConditions),
               fUpdates[|old(fUpdates)|..])
      {
        ghost var table, updates := linkedList, fUpdates;
        ProgressRow(tableName, rows[i]);
        NewAskedTrans(old(linkedList), table, linkedList, AskedRows(rows), {Positives(rows[i].conditions)}, AskedRows(rows));
        assert rows[..i + 1][..i] == rows[..i];
        if processNumConditions == 0 {
          RowsStayKnown(table, linkedList, rows[..i]);
        } else if RowsKnown(old(linkedList), rows) {
          RowsStayKnown(old(linkedList), table, rows);
          AnswersConcatenate(table, linkedList, |old(fUpdates)|, updates, fUpdates,
            TableJobs(database, tableName, rows[..i], processNumConditions),
            RowJobs(database, tableName, rows[i], processNumConditions));
        }
      }
      assert rows[..|rows|] == rows;
    }

    /** The listed tables of one database in the current pass. */
    method ProgressTables(db: Database, names: seq<string>)
      requires Valid() && 0 <= processNumConditions <= 3 && database == db.name
      requires forall t :: t in names ==> t in db.tables && forall r :: r in db.tables[t] ==> 1 <= |r.conditions| <= 3
      modifies this`linkedList, this`oldMax, this`fUpdates, this`errors
      ensures Valid() && old(linkedList) <= linkedList && old(fUpdates) <= fUpdates
      ensures NewAsked(old(linkedList), linkedList, AskedTables(db, names))
      ensures processNumConditions == 0 ==>
        TablesKnown(linkedList, db, names) && fUpdates == old(fUpdates) && errors == old(errors)
      ensures processNumConditions > 0 && TablesKnown(old(linkedList), db, names) ==>
        && errors == old(errors)
        && AnsweredBy(linkedList, TablesJobs(db, names, processNumConditions), fUpdates[|old(fUpdates)|..])
    {
      hide TableJobs, RowsKnown, NewAsked, WellFormed, Width, Distinct;
      NothingNew(linkedList, AskedTables(db, names));
      for i := 0 to |names|
        invariant Valid() && old(linkedList) <= linkedList && old(fUpdates) <= fUpdates
        invariant NewAsked(old(linkedList), linkedList, AskedTables(db, names))
        invariant processNumConditions == 0 ==>
          TablesKnown(linkedList, db, names[..i]) && fUpdates == old(fUpdates) && errors == old(errors)
        invariant processNumConditions > 0 && TablesKnown(old(linkedList), db, names) ==>
          && errors == old(errors)
          && AnsweredBy(linkedList, TablesJobs(db, names[..i], processNumConditions), fUpdates[|old(fUpdates)|..])
      {
        ghost var table, updates, rows := linkedList, fUpdates, db.tables[names[i]];
        ProgressTable(names[i], db.tables[names[i]]);
        NewAskedTrans(old(linkedList), table, linkedList, AskedTables(db, names), AskedRows(rows), AskedTables(db, names));
        assert names[..i + 1][..i] == names[..i];
        if processNumConditions == 0 {
          TablesStayKnown(table, linkedList, db, names[..i]);
        } else if TablesKnown(old(linkedList), db, names) {
          RowsStayKnown(old(linkedList), table, rows);
          AnswersConcatenate(table, linkedList, |old(fUpdates)|, updates, fUpdates,
            TablesJobs(db, names[..i], processNumConditions),
            TableJobs(db.name, names[i], rows, processNumConditions));
        }
      }
      assert names[..|names|] == names;
    }

    /** One database in the current pass. */
    method DoTables(db: Database)
      requires Valid() && 0 <= processNumConditions <= 3 && WellShaped(db)
      modifies this`linkedList, this`oldMax, this`fUpdates, this`errors, this`database
      ensures Valid() && old(linkedList) <= linkedList && old(fUpdates) <= fUpdates
      ensures NewAsked(old(linkedList), linkedList, AskedAll([db]))
      ensures processNumConditions == 0 ==>
        DatabaseKnown(linkedList, db) && fUpdates == old(fUpdates) && errors == old(errors)
      ensures processNumConditions > 0 && DatabaseKnown(old(linkedList), db) ==>
        && errors == old(errors)
        && AnsweredBy(linkedList, DatabaseJobs(db, processNumConditions), fUpdates[|old(fUpdates)|..])
    {
      hide Columns, ScannedTables, AskedTables, NewAsked, AskedAll;
      database := db.name;
      LaterPassesScanLess(db.expansion, processNumConditions);
      ScannedAreThere(db);
      ghost var names := ScannedTables(db.expansion, processNumConditions);
      ProgressTables(db, ScannedTables(db.expansion, processNumConditions));
      NothingNew(linkedList, {});
      ListedAreAsked([db], 0, names);
      NewAskedTrans(old(linkedList), linkedList, linkedList, AskedTables(db, names), {}, AskedAll([db]));
      if processNumConditions == 0 {
        ScannedKnown(linkedList, db);
      }
    }

    /** The main program: pass 0 collects the leaves, pass k answers the rows with k conditions. */
    method Run(databases: seq<Database>)
      requires Valid() && fUpdates == [] && errors == 0
      requires forall db :: db in databases ==> WellShaped(db)
      modifies this
      ensures Valid() && old(linkedList) <= linkedList
      ensures errors == 0
      ensures AnsweredBy(linkedList, JobsBefore(databases, 4), fUpdates)
      ensures DatabasesKnown(linkedList, databases) && NewAsked(old(linkedList), linkedList, AskedAll(databases))
    {
      hide NewAsked, WellFormed, Width, Distinct, Known;
      NothingNew(linkedList, AskedAll(databases));
      for i := 0 to 4
        invariant NewAsked(old(linkedList), linkedList, AskedAll(databases))
        invariant Valid() && old(linkedList) <= linkedList && errors == 0
        invariant i > 0 ==> DatabasesKnown(linkedList, databases)
        invariant AnsweredBy(linkedList, JobsBefore(databases, i), fUpdates)
      {
        ghost var table, updates := linkedList, fUpdates;
        RunPass(databases, i);
        NewAskedTrans(old(linkedList), table, linkedList, AskedAll(databases), AskedAll(databases), AskedAll(databases));
        if i > 0 {
          DatabasesStayKnown(table, linkedList, databases);
          assert updates[0..] == updates && fUpdates[0..] == fUpdates;
          AnswersConcatenate(table, linkedList, 0, updates, fUpdates, JobsBefore(databases, i), PassJobs(databases, i));
        }
      }
    }

    /** One pass over all databases. */
    method RunPass(databases: seq<Database>, pass: int)
      requires Valid() && 0 <= pass <= 3
      requires forall db :: db in databases ==> WellShaped(db)
      modifies this
      ensures Valid() && old(linkedList) <= linkedList && old(fUpdates) <= fUpdates
      ensures NewAsked(old(linkedList), linkedList, AskedAll(databases))
      ensures pass == 0 ==>
        DatabasesKnown(linkedList, databases) && fUpdates == old(fUpdates) && errors == old(errors)
      ensures pass > 0 && DatabasesKnown(old(linkedList), databases) ==>
        errors == old(errors) && AnsweredBy(linkedList, PassJobs(databases, pass), fUpdates[|old(fUpdates)|..])
    {
      hide NewAsked, WellFormed, Width, Distinct, Known, AskedAll, AskedTables, DatabaseKnown;
      NothingNew(linkedList, AskedAll(databases));
      processNumConditions := pass;
      for i := 0 to |databases|
        invariant processNumConditions == pass && NewAsked(old(linkedList), linkedList, AskedAll(databases))
        invariant Valid() && old(linkedList) <= linkedList && old(fUpdates) <= fUpdates
        invariant pass == 0 ==>
          DatabasesKnown(linkedList, databases[..i]) && fUpdates == old(fUpdates) && errors == old(errors)
        invariant pass > 0 && DatabasesKnown(old(linkedList), databases) ==>
          errors == old(errors) && AnsweredBy(linkedList, PassJobs(databases[..i], pass), fUpdates[|old(fUpdates)|..])
      {
        ghost var table, updates := linkedList, fUpdates;
        DoTables(databases[i]);
        OneIsAsked(databases, i);
        NewAskedTrans(old(linkedList), table, linkedList, AskedAll(databases), AskedAll([databases[i]]), AskedAll(databases));
        assert databases[..i + 1][..i] == databases[..i];
        if pass == 0 {
          DatabasesStayKnown(table, linkedList, databases[..i]);
        } else if DatabasesKnown(old(linkedList), databases) {
          DatabasesStayKnown(old(linkedList), table, databases);
          AnswersConcatenate(table, linkedList, |old(fUpdates)|, updates, fUpdates,
            PassJobs(databases[..i], pass), DatabaseJobs(databases[i], pass));
        }
      }
      assert databases[..|databases|] == databases;
    }

    /** The rows written to the conditions table. */
    method CreateDump() returns (dump: seq<Entry>)
      requires Valid()
      ensures oldMax > 0 ==> dump == linkedList[1..]
      ensures oldMax == 0 ==> dump == [Entry(0, 0, 0, 0)]
    {
      dump := [];
      var i := 1;
      while i < oldMax
        invariant 1 <= i && (oldMax > 0 ==> i <= oldMax && dump == linkedList[1..i]) && (oldMax == 0 ==> dump == [])
      {
        dump := dump + [linkedList[i]];
        i := i + 1;
      }
      assert EntryOk(linkedList[0], 0);
      dump := dump + [linkedList[oldMax]];
    }
  }

  ghost predicate LeavesFound(table: seq<Entry>, founds: seq<nat>, cs: seq<Condition>) {
    |founds| == |cs| && forall i :: 0 <= i < |cs| ==> Denotes(table, founds[i], multiset{cs[i]})
  }

  lemma ThreeOfEach(
    table: seq<Entry>, cs: seq<Condition>, ps: seq<multiset<Condition>>, founds: seq<nat>, pairs: seq<nat>)
    requires Triple(table, cs, ps, founds) && PairsFound(table, ps, pairs)
    ensures |founds| == |pairs| == 3
  {
  }

  lemma SomePair(table: seq<Entry>, ps: seq<multiset<Condition>>, pairs: seq<nat>)
    requires PairsFound(table, ps, pairs)
    ensures pairs != [0, 0, 0]
  {
  }

  lemma TripleFits(
    table: seq<Entry>, cs: seq<Condition>, ps: seq<multiset<Condition>>, founds: seq<nat>, pairs: seq<nat>, i: nat)
    requires Canonical(table) && Triple(table, cs, ps, founds) && PairsFound(table, ps, pairs) && i < 3 && pairs[i] > 0
    ensures WellFormed(table) && |founds| == 3 && EntryOk(Entry(|table|, AND, founds[i], pairs[i]), |table|)
    ensures multiset(cs) == Leaves(table, founds[i]) + Leaves(table, pairs[i]) && |multiset(cs)| == 3
  {
    assert Beside(cs, i, ps[i]);
    assert Denotes(table, founds[i], multiset{cs[i]}) && Denotes(table, pairs[i], ps[i]);
    assert |multiset(cs)| == 3;
  }

  lemma TripleFound(
    table: seq<Entry>, cs: seq<Condition>, ps: seq<multiset<Condition>>, founds: seq<nat>, pairs: seq<nat>,
    i: nat, r: nat)
    requires Triple(table, cs, ps, founds) && PairsFound(table, ps, pairs) && i < 3 && pairs[i] > 0
    requires IsFoundEither(table, pairs[i], founds[i], r) && r > 0
    ensures Denotes(table, r, multiset(cs))
  {
    AndDenotesSum(table, pairs[i], founds[i], ps[i], multiset{cs[i]}, r);
    assert Beside(cs, i, ps[i]);
  }

  /** The AND of leaf i and the pair beside it was appended; no earlier leaf had its pair there. */
  ghost predicate TripleAdded(before: seq<Entry>, after: seq<Entry>, founds: seq<nat>, pairs: seq<nat>, i: nat) {
    && i < |founds| && i < |pairs| && pairs[i] > 0 && (forall k :: 0 <= k < i ==> pairs[k] == 0)
    && after == before + [Entry(|before|, -1, founds[i], pairs[i])]
  }

  /** Where a pair entry is recorded it is the right one, and one is recorded. */
  ghost predicate PairsFound(table: seq<Entry>, ps: seq<multiset<Condition>>, pairs: seq<nat>) {
    && |pairs| == |ps| == 3
    && (forall i :: 0 <= i < 3 && pairs[i] != 0 ==> Denotes(table, pairs[i], ps[i]))
    && !(pairs[0] == pairs[1] == pairs[2] == 0)
  }

  lemma TripleStays(
    before: seq<Entry>, after: seq<Entry>, cs: seq<Condition>, ps: seq<multiset<Condition>>, founds: seq<nat>)
    requires WellFormed(before) && WellFormed(after) && before <= after
    requires Triple(before, cs, ps, founds)
    ensures Triple(after, cs, ps, founds)
  {
    LeavesStayFound(before, after, founds, cs);
  }

  lemma LookedUpPairs(table: seq<Entry>, ps: seq<multiset<Condition>>, pairs: seq<nat>)
    requires PairsLookedUp(table, ps, pairs)
    ensures |pairs| == 3 && (pairs != [0, 0, 0] ==> PairsFound(table, ps, pairs))
  {
    if pairs[0] == 0 && pairs[1] == 0 && pairs[2] == 0 {
      assert pairs == [0, 0, 0];
    }
    assert forall i :: 0 <= i < 3 ==> IsEntryFor(table, ps[i], pairs[i]);
  }

  /** No pair of the triple is there: neither is the triple, and the pair beside the first leaf can be inserted. */
  lemma PairIsMissing(
    table: seq<Entry>, cs: seq<Condition>, ps: seq<multiset<Condition>>, founds: seq<nat>, pairs: seq<nat>)
    requires Canonical(table) && Triple(table, cs, ps, founds) && PairsLookedUp(table, ps, pairs) && pairs == [0, 0, 0]
    requires ps[0] == multiset{cs[1]} + multiset{cs[2]}
    ensures |founds| == |ps| == 3 && WellFormed(table) && EntryOk(Entry(|table|, AND, founds[1], founds[2]), |table|)
    ensures ps[0] == Leaves(table, founds[1]) + Leaves(table, founds[2]) && |ps[0]| <= 3 && !Known(table, ps[0])
    ensures !Known(table, multiset(cs))
  {
    assert Denotes(table, founds[1], multiset{cs[1]}) && Denotes(table, founds[2], multiset{cs[2]});
    assert IsEntryFor(table, ps[0], pairs[0]);
    MissingTriple(table, cs, ps, founds, pairs);
  }

  lemma PairInserted(
    before: seq<Entry>, e: Entry, cs: seq<Condition>, ps: seq<multiset<Condition>>, founds: seq<nat>)
    requires WellFormed(before) && WellFormed(before + [e]) && Triple(before, cs, ps, founds)
    requires ps[0] == multiset{cs[1]} + multiset{cs[2]} && !Known(before, multiset(cs))
    requires Denotes(before + [e], |before|, ps[0]) && NewAsked(before, before + [e], {ps[0]})
    ensures Triple(before + [e], cs, ps, founds) && !Known(before + [e], multiset(cs))
    ensures PairsFound(before + [e], ps, [|before|, 0, 0])
    ensures NewAsked(before, before + [e], {multiset(cs)})
  {
    TripleStays(before, before + [e], cs, ps, founds);
    NewPairIsNoTriple(before, e, ps[0], cs);
    assert Beside(cs, 0, ps[0]);
    AskedByMore(before, before + [e], ps[0], multiset(cs));
  }

  lemma NewPairIsNoTriple(table: seq<Entry>, e: Entry, p: multiset<Condition>, cs: seq<Condition>)
    requires WellFormed(table) && WellFormed(table + [e]) && Denotes(table + [e], |table|, p)
    requires |p| == 2 && |cs| == 3 && !Known(table, multiset(cs))
    ensures !Known(table + [e], multiset(cs))
  {
    assert |multiset(cs)| == 3;
    if Known(table + [e], multiset(cs)) {
      OnlyNewEntryIsNew(table, e, p, multiset(cs));
      assert false;
    }
  }

  lemma LeavesStayFound(before: seq<Entry>, after: seq<Entry>, founds: seq<nat>, cs: seq<Condition>)
    requires WellFormed(before) && WellFormed(after) && before <= after
    requires LeavesFound(before, founds, cs)
    ensures LeavesFound(after, founds, cs)
  {
    forall i | 0 <= i < |cs| ensures Denotes(after, founds[i], multiset{cs[i]}) {
      DenotesSurvivesInserts(before, after, founds[i], multiset{cs[i]});
    }
  }
}
