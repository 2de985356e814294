/** The hash-consed table of ConvertConditions.py: leaf conditions and binary
    ANDs of earlier entries, and what its entries mean. */
module ConditionTable {

  datatype Condition = Condition(kind: int, value1: int, value2: int)

  datatype Entry = Entry(id: int, kind: int, value1: int, value2: int)

  const AND := -1

  predicate IsLeaf(e: Entry) {
    e.kind > 0
  }

  /** A row of the table at position i: its own index, and a leaf or an AND of two earlier rows. */
  predicate EntryOk(e: Entry, i: nat) {
    && e.id == i
    && if i == 0 then e == Entry(0, 0, 0, 0)
       else IsLeaf(e) || (e.kind == AND && 1 <= e.value1 < i && 1 <= e.value2 < i)
  }

  predicate WellFormed(table: seq<Entry>) {
    && |table| >= 1
    && forall i :: 0 <= i < |table| ==> EntryOk(table[i], i)
  }

  function LeafCondition(e: Entry): Condition {
    Condition(e.kind, e.value1, e.value2)
  }

  /** The leaf conditions under entry i, with multiplicity. */
  ghost function Leaves(table: seq<Entry>, i: int): (m: multiset<Condition>)
    requires WellFormed(table) && 1 <= i < |table|
    decreases i
  {
    assert EntryOk(table[i], i);
    if IsLeaf(table[i]) then multiset{LeafCondition(table[i])}
    else Leaves(table, table[i].value1) + Leaves(table, table[i].value2)
  }

  /** How many leaves there are under entry i. */
  ghost function Width(table: seq<Entry>, i: int): (w: nat)
    requires WellFormed(table) && 1 <= i < |table|
    ensures w == 1 <==> IsLeaf(table[i])
    ensures w >= 1
    decreases i
  {
    assert EntryOk(table[i], i);
    if IsLeaf(table[i]) then 1 else Width(table, table[i].value1) + Width(table, table[i].value2)
  }

  /** How a reader of the table evaluates entry i. */
  ghost function Eval(table: seq<Entry>, i: int, truth: Condition -> bool): bool
    requires WellFormed(table) && 1 <= i < |table|
    decreases i
  {
    assert EntryOk(table[i], i);
    if IsLeaf(table[i]) then truth(LeafCondition(table[i]))
    else Eval(table, table[i].value1, truth) && Eval(table, table[i].value2, truth)
  }

  /** Entry i stands for the conjunction of exactly the conditions in m. */
  ghost predicate Denotes(table: seq<Entry>, i: int, m: multiset<Condition>) {
    WellFormed(table) && 1 <= i < |table| && Leaves(table, i) == m
  }

  /** Entries i and j do not repeat each other's conditions. */
  ghost predicate Distinct(table: seq<Entry>, i: int, j: int)
    requires WellFormed(table)
  {
    1 <= i < |table| && 1 <= j < |table| && Leaves(table, i) == Leaves(table, j) ==> i == j
  }

  /** Hash-consing: at most one entry for each multiset, of one to three conditions. */
  ghost predicate Canonical(table: seq<Entry>) {
    && WellFormed(table)
    && (forall i :: 1 <= i < |table| ==> Width(table, i) <= 3)
    && forall i, j :: Distinct(table, i, j)
  }

  ghost predicate Known(table: seq<Entry>, m: multiset<Condition>) {
    exists i :: Denotes(table, i, m)
  }

  lemma {:induction false} WidthIsSize(table: seq<Entry>, i: int)
    requires WellFormed(table) && 1 <= i < |table|
    ensures Width(table, i) == |Leaves(table, i)|
    decreases i
  {
    assert EntryOk(table[i], i);
    if !IsLeaf(table[i]) {
      WidthIsSize(table, table[i].value1);
      WidthIsSize(table, table[i].value2);
    }
  }

  // ---- meaning

  /** Evaluating an entry is testing every leaf under it. */
  lemma {:induction false} EvalIsConjunction(table: seq<Entry>, i: int, truth: Condition -> bool)
    requires WellFormed(table) && 1 <= i < |table|
    ensures Eval(table, i, truth) <==> forall c :: c in Leaves(table, i) ==> truth(c)
    decreases i
  {
    assert EntryOk(table[i], i);
    if !IsLeaf(table[i]) {
      EvalIsConjunction(table, table[i].value1, truth);
      EvalIsConjunction(table, table[i].value2, truth);
    }
  }

  /** Later inserts change no existing entry's leaves. */
  lemma {:induction false} LeavesSurviveInserts(before: seq<Entry>, after: seq<Entry>, i: int)
    requires WellFormed(before) && WellFormed(after) && before <= after
    requires 1 <= i < |before|
    ensures Leaves(after, i) == Leaves(before, i)
    decreases i
  {
    assert EntryOk(before[i], i);
    if !IsLeaf(before[i]) {
      LeavesSurviveInserts(before, after, before[i].value1);
      LeavesSurviveInserts(before, after, before[i].value2);
    }
  }

  lemma DenotesSurvivesInserts(before: seq<Entry>, after: seq<Entry>, i: int, m: multiset<Condition>)
    requires WellFormed(before) && WellFormed(after) && before <= after
    requires Denotes(before, i, m)
    ensures Denotes(after, i, m)
  {
    LeavesSurviveInserts(before, after, i);
  }

  lemma EvalSurvivesInserts(before: seq<Entry>, after: seq<Entry>, i: int, truth: Condition -> bool)
    requires WellFormed(before) && WellFormed(after) && before <= after
    requires 1 <= i < |before|
    ensures Eval(after, i, truth) == Eval(before, i, truth)
  {
    LeavesSurviveInserts(before, after, i);
    EvalIsConjunction(before, i, truth);
    EvalIsConjunction(after, i, truth);
  }

  // ---- inserting

  /** Appending an entry for a multiset the table does not know keeps it canonical. */
  lemma {:induction false} InsertKeepsCanonical(table: seq<Entry>, e: Entry, m: multiset<Condition>)
    requires Canonical(table) && EntryOk(e, |table|)
    requires if IsLeaf(e) then m == multiset{LeafCondition(e)}
             else m == Leaves(table, e.value1) + Leaves(table, e.value2)
    requires |m| <= 3 && !Known(table, m)
    ensures Canonical(table + [e])
    ensures Denotes(table + [e], |table|, m)
  {
    var n, after := |table|, table + [e];
    assert WellFormed(after);
    forall i | 1 <= i < n ensures Leaves(after, i) == Leaves(table, i) && Leaves(after, i) != m {
      LeavesSurviveInserts(table, after, i);
      assert !Denotes(table, i, m);
    }
    assert Leaves(after, n) == m;
    forall i | 1 <= i <= n ensures Width(after, i) <= 3 {
      WidthIsSize(after, i);
      if i < n {
        WidthIsSize(table, i);
      }
    }
    forall i, j ensures Distinct(after, i, j) {
      assert Distinct(table, i, j);
    }
  }

  /** An insert makes nothing known but what the new entry denotes. */
  lemma OnlyNewEntryIsNew(table: seq<Entry>, e: Entry, m: multiset<Condition>, k: multiset<Condition>)
    requires WellFormed(table) && WellFormed(table + [e])
    requires Denotes(table + [e], |table|, m)
    requires Known(table + [e], k) && k != m
    ensures Known(table, k)
  {
    var i :| Denotes(table + [e], i, k);
    LeavesSurviveInserts(table, table + [e], i);
    assert Denotes(table, i, k);
  }

  // ---- looking up

  predicate Matches(e: Entry, kind: int, value1: int, value2: int) {
    e.kind == kind && e.value1 == value1 && e.value2 == value2
  }

  /** The first matching entry, or 0: the search of findCondition. */
  ghost predicate IsFound(table: seq<Entry>, kind: int, value1: int, value2: int, r: int) {
    if r == 0 then forall i :: 1 <= i < |table| ==> !Matches(table[i], kind, value1, value2)
    else 1 <= r < |table| && Matches(table[r], kind, value1, value2)
  }

  /** An AND of x and y in one of the two orders, or 0 if there is neither. */
  ghost predicate IsFoundEither(table: seq<Entry>, x: int, y: int, r: int) {
    if r == 0 then forall i :: 1 <= i < |table| ==>
      !Matches(table[i], AND, x, y) && !Matches(table[i], AND, y, x)
    else 1 <= r < |table| && (Matches(table[r], AND, x, y) || Matches(table[r], AND, y, x))
  }

  /** r is the entry for m, or 0 if the table has none. */
  ghost predicate IsEntryFor(table: seq<Entry>, m: multiset<Condition>, r: int) {
    if r == 0 then !Known(table, m) else Denotes(table, r, m)
  }

  lemma FoundLeafIsEntry(table: seq<Entry>, c: Condition, r: int)
    requires Canonical(table) && c.kind > 0
    requires IsFound(table, c.kind, c.value1, c.value2, r)
    ensures IsEntryFor(table, multiset{c}, r)
  {
    forall i | Denotes(table, i, multiset{c}) ensures IsLeaf(table[i]) && LeafCondition(table[i]) == c {
      SingletonIsLeaf(table, i);
      assert LeafCondition(table[i]) in multiset{c};
    }
  }

  /** Only a leaf has one leaf under it. */
  lemma SingletonIsLeaf(table: seq<Entry>, i: int)
    requires WellFormed(table) && 1 <= i < |table| && |Leaves(table, i)| == 1
    ensures IsLeaf(table[i]) && Leaves(table, i) == multiset{LeafCondition(table[i])}
  {
    WidthIsSize(table, i);
  }

  lemma EntryIsUnique(table: seq<Entry>, m: multiset<Condition>, i: int, r: int)
    requires Canonical(table) && Denotes(table, i, m) && IsEntryFor(table, m, r)
    ensures r == i
  {
    assert Distinct(table, i, r);
  }

  /** Splitting a two-element multiset into two singletons can be done in two ways only. */
  lemma PairSplit<T>(a: T, b: T, c: T, d: T)
    requires multiset{a} + multiset{b} == multiset{c} + multiset{d}
    ensures (a == c && b == d) || (a == d && b == c)
  {
    assert a in multiset{c} + multiset{d};
    assert (multiset{a} + multiset{b}) - multiset{a} == multiset{b};
    assert (multiset{c} + multiset{d}) - multiset{c} == multiset{d};
    assert (multiset{c} + multiset{d}) - multiset{d} == multiset{c};
  }

  lemma AndOfTwo(table: seq<Entry>, i: int, m: multiset<Condition>)
    requires Denotes(table, i, m) && |m| == 2
    ensures EntryOk(table[i], i) && !IsLeaf(table[i])
    ensures |Leaves(table, table[i].value1)| == |Leaves(table, table[i].value2)| == 1
  {
    assert EntryOk(table[i], i);
    WidthIsSize(table, i);
    WidthIsSize(table, table[i].value1);
    WidthIsSize(table, table[i].value2);
  }

  /** Looking two leaves up in both orders finds the entry of their pair. */
  lemma FoundPairIsEntry(table: seq<Entry>, x: int, y: int, a: Condition, b: Condition, r: int)
    requires Canonical(table)
    requires Denotes(table, x, multiset{a}) && Denotes(table, y, multiset{b})
    requires IsFoundEither(table, x, y, r)
    ensures IsEntryFor(table, multiset{a} + multiset{b}, r)
  {
    var m := multiset{a} + multiset{b};
    if r == 0 {
      forall i ensures !Denotes(table, i, m) {
        if Denotes(table, i, m) {
          var v1, v2 := table[i].value1, table[i].value2;
          assert EntryOk(table[i], i);
          AndOfTwo(table, i, m);
          SingletonIsLeaf(table, v1);
          SingletonIsLeaf(table, v2);
          PairSplit(LeafCondition(table[v1]), LeafCondition(table[v2]), a, b);
          EntryIsUnique(table, Leaves(table, v1), v1, if LeafCondition(table[v1]) == a then x else y);
          EntryIsUnique(table, Leaves(table, v2), v2, if LeafCondition(table[v1]) == a then y else x);
        }
      }
    } else {
      assert EntryOk(table[r], r);
    }
  }

  /** The two conditions in p are those left when the i-th of three is put aside. */
  ghost predicate Beside(cs: seq<Condition>, i: int, p: multiset<Condition>)
    requires 0 <= i < |cs|
  {
    p + multiset{cs[i]} == multiset(cs)
  }

  /** Three conditions, the pair beside each, and the entries of the three leaves. */
  ghost predicate Triple(table: seq<Entry>, cs: seq<Condition>, ps: seq<multiset<Condition>>, founds: seq<nat>) {
    && |cs| == |ps| == |founds| == 3
    && (forall i :: 0 <= i < 3 ==> Denotes(table, founds[i], multiset{cs[i]}))
    && forall i {:trigger Beside(cs, i, ps[i])} :: 0 <= i < 3 ==> Beside(cs, i, ps[i])
  }

  /** The entries of the three pairs, or 0 where the table has none. */
  ghost predicate PairsLookedUp(table: seq<Entry>, ps: seq<multiset<Condition>>, pairs: seq<nat>) {
    && |ps| == |pairs| == 3
    && forall i :: 0 <= i < 3 ==> IsEntryFor(table, ps[i], pairs[i])
  }

  lemma ThreePairsBeside(cs: seq<Condition>)
    requires |cs| == 3
    ensures Beside(cs, 0, multiset{cs[1]} + multiset{cs[2]})
    ensures Beside(cs, 1, multiset{cs[0]} + multiset{cs[2]})
    ensures Beside(cs, 2, multiset{cs[0]} + multiset{cs[1]})
  {
    assert cs == [cs[0], cs[1], cs[2]];
  }

  /** Splitting one condition off a triple leaves the pair beside one of its positions. */
  lemma OneSplitOff(cs: seq<Condition>, c: Condition, rest: multiset<Condition>) returns (i: nat)
    requires multiset{c} + rest == multiset(cs)
    ensures i < |cs| && cs[i] == c && Beside(cs, i, rest)
  {
    assert c in multiset{c} + rest;
    assert c in cs;
    i :| 0 <= i < |cs| && cs[i] == c;
  }

  lemma BesideIsUnique(cs: seq<Condition>, i: nat, p: multiset<Condition>, q: multiset<Condition>)
    requires i < |cs| && Beside(cs, i, p) && Beside(cs, i, q)
    ensures p == q
  {
    assert (p + multiset{cs[i]}) - multiset{cs[i]} == p;
    assert (q + multiset{cs[i]}) - multiset{cs[i]} == q;
  }

  lemma AndDenotesSum(table: seq<Entry>, x: nat, y: nat, p: multiset<Condition>, q: multiset<Condition>, r: nat)
    requires Denotes(table, x, p) && Denotes(table, y, q)
    requires IsFoundEither(table, x, y, r) && r > 0
    ensures Denotes(table, r, p + q)
  {
    assert EntryOk(table[r], r);
  }

  /** A triple's entry is the AND of a leaf and of the pair looked up beside it. */
  lemma {:induction false} SplitIsLookedUp(
    table: seq<Entry>, cs: seq<Condition>, ps: seq<multiset<Condition>>, founds: seq<nat>, pairs: seq<nat>,
    leaf: nat, pair: nat)
    returns (i: nat)
    requires Canonical(table) && Triple(table, cs, ps, founds) && PairsLookedUp(table, ps, pairs)
    requires 1 <= leaf < |table| && 1 <= pair < |table| && |Leaves(table, leaf)| == 1
    requires Leaves(table, leaf) + Leaves(table, pair) == multiset(cs)
    ensures i < 3 && leaf == founds[i] && pair == pairs[i]
  {
    SingletonIsLeaf(table, leaf);
    var c, rest := LeafCondition(table[leaf]), Leaves(table, pair);
    i := OneSplitOff(cs, c, rest);
    assert Beside(cs, i, ps[i]);
    BesideIsUnique(cs, i, rest, ps[i]);
    EntryIsUnique(table, rest, pair, pairs[i]);
    EntryIsUnique(table, multiset{c}, leaf, founds[i]);
  }

  /** Whichever way a triple was first built, one of the three searches finds its entry. */
  lemma {:induction false} TripleIsFound(
    table: seq<Entry>, cs: seq<Condition>, ps: seq<multiset<Condition>>, founds: seq<nat>, pairs: seq<nat>, r: int)
    returns (i: nat)
    requires Canonical(table) && Triple(table, cs, ps, founds) && PairsLookedUp(table, ps, pairs)
    requires Denotes(table, r, multiset(cs))
    ensures i < 3 && pairs[i] != 0
    ensures Matches(table[r], AND, pairs[i], founds[i]) || Matches(table[r], AND, founds[i], pairs[i])
  {
    AndOfTriple(table, cs, r);
    var v1, v2 := table[r].value1, table[r].value2;
    if |Leaves(table, v1)| == 1 {
      i := SplitIsLookedUp(table, cs, ps, founds, pairs, v1, v2);
    } else {
      i := SplitIsLookedUp(table, cs, ps, founds, pairs, v2, v1);
    }
  }

  /** If none of the three searches finds an AND, the table has no entry for the triple. */
  lemma {:induction false} MissingTriple(
    table: seq<Entry>, cs: seq<Condition>, ps: seq<multiset<Condition>>, founds: seq<nat>, pairs: seq<nat>)
    requires Canonical(table) && Triple(table, cs, ps, founds) && PairsLookedUp(table, ps, pairs)
    requires forall i :: 0 <= i < 3 ==> pairs[i] == 0 || IsFoundEither(table, pairs[i], founds[i], 0)
    ensures !Known(table, multiset(cs))
  {
    if r :| Denotes(table, r, multiset(cs)) {
      var i := TripleIsFound(table, cs, ps, founds, pairs, r);
      assert false;
    }
  }

  lemma {:induction false} AndOfTriple(table: seq<Entry>, cs: seq<Condition>, r: int)
    requires |cs| == 3 && Denotes(table, r, multiset(cs))
    ensures EntryOk(table[r], r) && !IsLeaf(table[r])
    ensures Leaves(table, table[r].value1) + Leaves(table, table[r].value2) == multiset(cs)
    ensures |Leaves(table, table[r].value1)| == 1 || |Leaves(table, table[r].value2)| == 1
  {
    assert EntryOk(table[r], r);
    assert |multiset(cs)| == 3;
    WidthIsSize(table, r);
    WidthIsSize(table, table[r].value1);
    WidthIsSize(table, table[r].value2);
  }
}
