/** In which order computeAdjacency assigns a face its three edges, and when
    the order is the one that leaves them out of loop. */
module FaceOrder {
  import opened Mesh
  import opened EdgeTable
  import opened Pairing

  // ---- the sides of a triangle list in the order in which they are entered

  function NextIndex(k: nat): nat {
    if k % 3 == 2 then k - 2 else k + 1
  }

  function SideAt(indexArray: seq<int>, k: nat): Side
    requires |indexArray| % 3 == 0 && k < |indexArray|
  {
    (indexArray[k], indexArray[NextIndex(k)])
  }

  /** The table entry of a side: the lower vertex and the higher one. */
  function PairOf(d: Side): Side {
    if d.0 < d.1 then d else (d.1, d.0)
  }

  /** The face index under which a side of face f is entered. */
  function Signed(f: int, d: Side): int {
    if d.0 < d.1 then f else Not(f)
  }

  /** What the first k sides put into the list of the pair (a, b). */
  function PairList(indexArray: seq<int>, k: nat, a: int, b: int): seq<int>
    requires |indexArray| % 3 == 0 && k <= |indexArray|
  {
    if k == 0 then [] else
      var d := SideAt(indexArray, k - 1);
      PairList(indexArray, k - 1, a, b) + if PairOf(d) == (a, b) then [Signed((k - 1) / 3, d)] else []
  }

  /** Among the first k sides, one of the pair (a, b) comes before all of the pair (a, c). */
  predicate EnteredBefore(indexArray: seq<int>, k: nat, a: int, b: int, c: int)
    requires |indexArray| % 3 == 0 && k <= |indexArray|
  {
    exists i :: 0 <= i < k && EnteredAt(indexArray, i, a, b, c)
  }

  predicate EnteredAt(indexArray: seq<int>, i: nat, a: int, b: int, c: int)
    requires |indexArray| % 3 == 0 && i < |indexArray|
  {
    PairOf(SideAt(indexArray, i)) == (a, b) && forall j :: 0 <= j <= i ==> PairOf(SideAt(indexArray, j)) != (a, c)
  }

  lemma EnteredBeforeAsymmetric(indexArray: seq<int>, a: int, b: int, c: int)
    requires |indexArray| % 3 == 0
    ensures EnteredBefore(indexArray, |indexArray|, a, b, c) ==> !EnteredBefore(indexArray, |indexArray|, a, c, b)
  {
  }

  // ---- what the table holds once k sides have been entered

  /** Entries of a row come in the order in which their pairs were first used. */
  ghost predicate RowsInOrder(table: seq<Row>, indexArray: seq<int>, k: nat)
    requires |indexArray| % 3 == 0 && k <= |indexArray|
  {
    forall v, p, q :: 0 <= v < |table| && 0 <= p < q < |table[v]| ==>
      EnteredBefore(indexArray, k, v, table[v][p].i1, table[v][q].i1)
  }

  ghost predicate TableEntered(table: seq<Row>, indexArray: seq<int>, k: nat)
    requires |indexArray| % 3 == 0 && k <= |indexArray|
  {
    && (forall a, b :: ListOf(table, a, b) == PairList(indexArray, k, a, b))
    && (forall v, p :: IsEntry(table, v, p) ==> table[v][p].faceIndexArray != [])
    && RowsInOrder(table, indexArray, k)
  }

  /** A pair without an entry has not been used. */
  lemma {:induction false} UsedIsListed(indexArray: seq<int>, k: nat, a: int, b: int, i: nat)
    requires |indexArray| % 3 == 0 && i < k <= |indexArray| && PairOf(SideAt(indexArray, i)) == (a, b)
    ensures PairList(indexArray, k, a, b) != []
  {
    if i < k - 1 {
      UsedIsListed(indexArray, k - 1, a, b, i);
    }
  }

  lemma {:induction false} ListedIsUsed(indexArray: seq<int>, k: nat, a: int, b: int) returns (i: nat)
    requires |indexArray| % 3 == 0 && k <= |indexArray| && PairList(indexArray, k, a, b) != []
    ensures i < k && PairOf(SideAt(indexArray, i)) == (a, b)
  {
    i := k - 1;
    if PairOf(SideAt(indexArray, k - 1)) != (a, b) {
      i := ListedIsUsed(indexArray, k - 1, a, b);
    }
  }

  /** An entry comes before one that is new in its row. */
  lemma OlderEntryFirst(table: seq<Row>, indexArray: seq<int>, k: nat, v: int, p: nat, c: int)
    requires |indexArray| % 3 == 0 && k < |indexArray| && TableEntered(table, indexArray, k)
    requires IsEntry(table, v, p) && DistinctRow(table[v])
    requires forall q :: 0 <= q < |table[v]| ==> table[v][q].i1 != c
    ensures EnteredBefore(indexArray, k + 1, v, table[v][p].i1, c)
  {
    var b := table[v][p].i1;
    RowListAt(table[v], p);
    assert ListOf(table, v, b) == PairList(indexArray, k, v, b) != [];
    var i := ListedIsUsed(indexArray, k, v, b);
    RowListMissing(table[v], c);
    assert ListOf(table, v, c) == PairList(indexArray, k, v, c) == [];
    forall j | 0 <= j <= i ensures PairOf(SideAt(indexArray, j)) != (v, c) {
      if PairOf(SideAt(indexArray, j)) == (v, c) {
        UsedIsListed(indexArray, k, v, c, j);
      }
    }
    assert EnteredAt(indexArray, i, v, b, c);
  }

  lemma EnteredBeforeStays(indexArray: seq<int>, k: nat, a: int, b: int, c: int)
    requires |indexArray| % 3 == 0 && k < |indexArray| && EnteredBefore(indexArray, k, a, b, c)
    ensures EnteredBefore(indexArray, k + 1, a, b, c)
  {
    var i :| 0 <= i < k && EnteredAt(indexArray, i, a, b, c);
    assert 0 <= i < k + 1;
  }

  lemma EntriesStayFilled(table: seq<Row>, table': seq<Row>, lo: int, hi: int, x: int)
    requires DistinctRows(table) && DistinctRows(table') && RowGrown(table, table', lo, hi)
    requires forall v, p :: IsEntry(table, v, p) ==> table[v][p].faceIndexArray != []
    requires forall a, b :: ListOf(table', a, b) == ListOf(table, a, b) + (if (a, b) == (lo, hi) then [x] else [])
    ensures forall v, p :: IsEntry(table', v, p) ==> table'[v][p].faceIndexArray != []
  {
    forall v, p | IsEntry(table', v, p) ensures table'[v][p].faceIndexArray != [] {
      var b := table'[v][p].i1;
      assert DistinctRow(table'[v]) && DistinctRow(table[v]);
      RowListAt(table'[v], p);
      assert ListOf(table', v, b) == table'[v][p].faceIndexArray;
      if p < |table[v]| {
        assert IsEntry(table, v, p);
        RowListAt(table[v], p);
        assert ListOf(table, v, b) != [];
      }
    }
  }

  lemma RowsStayInOrder(table: seq<Row>, table': seq<Row>, indexArray: seq<int>, k: nat, lo: int, hi: int)
    requires |indexArray| % 3 == 0 && k < |indexArray|
    requires TableEntered(table, indexArray, k) && DistinctRows(table) && RowGrown(table, table', lo, hi)
    ensures RowsInOrder(table', indexArray, k + 1)
  {
    forall v, p, q | 0 <= v < |table'| && 0 <= p < q < |table'[v]|
      ensures EnteredBefore(indexArray, k + 1, v, table'[v][p].i1, table'[v][q].i1)
    {
      hide EnteredBefore, ListOf, PairList;
      assert DistinctRow(table[v]);
      if q < |table[v]| {
        assert RowsInOrder(table, indexArray, k);
        EnteredBeforeStays(indexArray, k, v, table[v][p].i1, table[v][q].i1);
      } else {
        OlderEntryFirst(table, indexArray, k, v, p, table'[v][q].i1);
      }
    }
  }

  /** Entering side k keeps the order of the table. */
  lemma EnterKeepsTable(table: seq<Row>, table': seq<Row>, indexArray: seq<int>, k: nat)
    requires |indexArray| % 3 == 0 && k < |indexArray|
    requires TableEntered(table, indexArray, k) && DistinctRows(table) && DistinctRows(table')
    requires var d := SideAt(indexArray, k);
      && RowGrown(table, table', PairOf(d).0, PairOf(d).1)
      && forall a, b ::
        ListOf(table', a, b) == ListOf(table, a, b) + (if (a, b) == PairOf(d) then [Signed(k / 3, d)] else [])
    ensures TableEntered(table', indexArray, k + 1)
  {
    hide RowsInOrder, RowGrown, ListOf, DistinctRows;
    var d := SideAt(indexArray, k);
    RowsStayInOrder(table, table', indexArray, k, PairOf(d).0, PairOf(d).1);
    EntriesStayFilled(table, table', PairOf(d).0, PairOf(d).1, Signed(k / 3, d));
  }

  // ---- which of two sides of a face is taken first

  /** Some x stands before some y. */
  predicate StandsBefore(order: seq<int>, x: int, y: int) {
    exists i, j :: 0 <= i < j < |order| && order[i] == x && order[j] == y
  }

  /** Side d of face f gets its edge before side e: its vertex pair is reached first in the
      table or, for sides of one pair, its face is taken from the list first. */
  predicate TakenFirst(indexArray: seq<int>, similarity: (int, int) -> real, f: int, d: Side, e: Side)
    requires |indexArray| % 3 == 0
  {
    var p, q := PairOf(d), PairOf(e);
    if p == q then
      StandsBefore(TakingOrder(PairList(indexArray, |indexArray|, p.0, p.1), similarity), Signed(f, d), Signed(f, e))
    else p.0 < q.0 || (p.0 == q.0 && EnteredBefore(indexArray, |indexArray|, p.0, p.1, q.1))
  }

  /** Entry (i, p) is the one of side d. */
  predicate IsEntryOf(table: seq<Row>, i: int, p: int, d: Side) {
    IsEntry(table, i, p) && PairOf(d) == (i, table[i][p].i1)
  }

  ghost predicate ReachedBefore(table: seq<Row>, i0: int, p0: int, d: Side) {
    exists i, p :: IsEntryOf(table, i, p, d) && Precedes(i, p, i0, p0)
  }

  /** The edges of face f listed so far come from entries before (i0, p0), in the order in which they are taken. */
  ghost predicate ListedInOrder(
    table: seq<Row>, indexArray: seq<int>, similarity: (int, int) -> real, i0: int, p0: int, f: int, l: seq<Side>)
    requires |indexArray| % 3 == 0
  {
    && (forall j :: 0 <= j < |l| ==> ReachedBefore(table, i0, p0, l[j]))
    && forall j, k :: 0 <= j < k < |l| ==> TakenFirst(indexArray, similarity, f, l[j], l[k])
  }

  ghost predicate AllInOrder(
    table: seq<Row>, indexArray: seq<int>, similarity: (int, int) -> real, i0: int, p0: int, faces: seq<Face>, edges: seq<Edge>)
    requires |indexArray| % 3 == 0
  {
    forall f :: 0 <= f < |faces| ==>
      ListedInOrder(table, indexArray, similarity, i0, p0, f, Listing(faces[f].edgeIndex, edges))
  }

  /** The sides of a face taken from one list stand there in the same order. */
  lemma {:induction false} SidesForStand(order: seq<int>, a: int, b: int, f: int, j: nat, k: nat) returns (i: nat, m: nat)
    requires j < k < |SidesFor(order, a, b, f)|
    ensures i < m < |order| && Index(order[i]) == f == Index(order[m])
    ensures SideOf(a, b, order[i]) == SidesFor(order, a, b, f)[j] && SideOf(a, b, order[m]) == SidesFor(order, a, b, f)[k]
  {
    if Index(order[0]) != f {
      i, m := SidesForStand(order[1..], a, b, f, j, k);
      i, m := i + 1, m + 1;
    } else if j == 0 {
      m := SideForStands(order[1..], a, b, f, k - 1);
      i, m := 0, m + 1;
    } else {
      i, m := SidesForStand(order[1..], a, b, f, j - 1, k - 1);
      i, m := i + 1, m + 1;
    }
  }

  lemma {:induction false} SideForStands(order: seq<int>, a: int, b: int, f: int, j: nat) returns (i: nat)
    requires j < |SidesFor(order, a, b, f)|
    ensures i < |order| && Index(order[i]) == f && SideOf(a, b, order[i]) == SidesFor(order, a, b, f)[j]
  {
    if Index(order[0]) != f {
      i := SideForStands(order[1..], a, b, f, j);
      i := i + 1;
    } else if j == 0 {
      i := 0;
    } else {
      i := SideForStands(order[1..], a, b, f, j - 1);
      i := i + 1;
    }
  }

  /** A list only holds faces that run from a vertex to itself if they are complemented. */
  predicate FitsPair(list: seq<int>, a: int, b: int) {
    a <= b && (a == b ==> forall x :: x in list ==> x < 0)
  }

  lemma OrderFitsPair(list: seq<int>, similarity: (int, int) -> real, a: int, b: int)
    requires FitsPair(list, a, b)
    ensures FitsPair(TakingOrder(list, similarity), a, b)
  {
    TakingOrderIsPermutation(list, similarity);
    forall x | x in TakingOrder(list, similarity) ensures x in list {
      assert x in multiset(TakingOrder(list, similarity));
    }
  }

  /** Processing one entry appends sides of its pair, in the order in which they are taken. */
  lemma EntryKeepsOrder(
    table: seq<Row>, indexArray: seq<int>, similarity: (int, int) -> real, i: int, p: int, i': int, p': int,
    f: int, l: seq<Side>)
    requires |indexArray| % 3 == 0 && TableEntered(table, indexArray, |indexArray|) && DistinctRows(table)
    requires IsEntry(table, i, p) && FitsPair(table[i][p].faceIndexArray, i, table[i][p].i1)
    requires ListedInOrder(table, indexArray, similarity, i, p, f, l)
    requires forall v, q :: IsEntry(table, v, q) ==>
      (Precedes(v, q, i', p') <==> Precedes(v, q, i, p) || (v == i && q == p))
    ensures ListedInOrder(table, indexArray, similarity, i', p', f,
              l + SidesFor(TakingOrder(table[i][p].faceIndexArray, similarity), i, table[i][p].i1, f))
  {
    var a, b := i, table[i][p].i1;
    var order := TakingOrder(table[i][p].faceIndexArray, similarity);
    var more := SidesFor(order, a, b, f);
    OrderFitsPair(table[i][p].faceIndexArray, similarity, a, b);
    hide TakingOrder, TakenFirst, SidesFor, TableEntered, DistinctRows;
    forall j | 0 <= j < |more| ensures PairOf(more[j]) == (a, b) {
      var m := SideForStands(order, a, b, f, j);
      assert order[m] in order;
    }
    forall j | 0 <= j < |l + more| ensures ReachedBefore(table, i', p', (l + more)[j]) {
      if j < |l| {
        assert ReachedBefore(table, i, p, l[j]);
        var v, q :| IsEntryOf(table, v, q, l[j]) && Precedes(v, q, i, p);
        assert Precedes(v, q, i', p');
      } else {
        assert IsEntryOf(table, i, p, more[j - |l|]) && Precedes(i, p, i', p');
      }
    }
    forall j, k | 0 <= j < k < |l + more| ensures TakenFirst(indexArray, similarity, f, (l + more)[j], (l + more)[k]) {
      if k < |l| {
        assert TakenFirst(indexArray, similarity, f, l[j], l[k]);
      } else if j < |l| {
        EarlierEntryFirst(table, indexArray, similarity, i, p, f, l[j], more[k - |l|]);
      } else {
        SameEntryInOrder(table, indexArray, similarity, i, p, f, j - |l|, k - |l|);
      }
    }
  }

  lemma EarlierEntryFirst(
    table: seq<Row>, indexArray: seq<int>, similarity: (int, int) -> real, i: int, p: int, f: int, d: Side, e: Side)
    requires |indexArray| % 3 == 0 && TableEntered(table, indexArray, |indexArray|) && DistinctRows(table)
    requires ReachedBefore(table, i, p, d) && IsEntryOf(table, i, p, e)
    ensures TakenFirst(indexArray, similarity, f, d, e)
  {
    var v, q :| IsEntryOf(table, v, q, d) && Precedes(v, q, i, p);
    assert DistinctRow(table[i]);
    if v == i {
      assert EnteredBefore(indexArray, |indexArray|, i, table[i][q].i1, table[i][p].i1);
    }
  }

  lemma SameEntryInOrder(
    table: seq<Row>, indexArray: seq<int>, similarity: (int, int) -> real, i: int, p: int, f: int, j: nat, k: nat)
    requires |indexArray| % 3 == 0 && TableEntered(table, indexArray, |indexArray|) && DistinctRows(table)
    requires IsEntry(table, i, p) && FitsPair(table[i][p].faceIndexArray, i, table[i][p].i1)
    requires j < k < |SidesFor(TakingOrder(table[i][p].faceIndexArray, similarity), i, table[i][p].i1, f)|
    ensures var more := SidesFor(TakingOrder(table[i][p].faceIndexArray, similarity), i, table[i][p].i1, f);
      TakenFirst(indexArray, similarity, f, more[j], more[k])
  {
    var list, a, b := table[i][p].faceIndexArray, i, table[i][p].i1;
    var order := TakingOrder(list, similarity);
    OrderFitsPair(list, similarity, a, b);
    assert DistinctRow(table[i]);
    RowListAt(table[i], p);
    assert list == ListOf(table, a, b) == PairList(indexArray, |indexArray|, a, b);
    var s, t := SidesForStand(order, a, b, f, j, k);
    assert order[s] in order && order[t] in order;
    SignedSide(a, b, order[s]);
    SignedSide(a, b, order[t]);
  }

  lemma SignedSide(a: int, b: int, x: int)
    requires a <= b && (a == b ==> x < 0)
    ensures PairOf(SideOf(a, b, x)) == (a, b) && Signed(Index(x), SideOf(a, b, x)) == x
  {
  }

  // ---- the faces whose edges do not follow each other

  /** Exactly two corners are the same vertex. */
  predicate TwoEqualCorners(t: Triple) {
    !t.AllDifferent() && !(t.a == t.b && t.b == t.c)
  }

  /** The vertex at two corners, and the one at the third. */
  function DoubleAndSingle(t: Triple): (r: Side)
    requires TwoEqualCorners(t)
    ensures r.0 != r.1 && Sides(t) == multiset{(r.1, r.0), (r.0, r.1), (r.0, r.0)}
  {
    if t.a == t.b then (t.a, t.c) else if t.b == t.c then (t.b, t.a) else (t.a, t.b)
  }

  /** Face f has two equal corners, and computeAdjacency takes first its side towards them,
      then the side back, and last the side that stays there. */
  predicate LeftOutOfLoop(indexArray: seq<int>, similarity: (int, int) -> real, f: nat)
    requires |indexArray| % 3 == 0 && 3 * f + 2 < |indexArray|
  {
    var t := Corners(indexArray, f);
    && TwoEqualCorners(t)
    && var (v, w) := DoubleAndSingle(t);
    && TakenFirst(indexArray, similarity, f, (w, v), (v, w))
    && TakenFirst(indexArray, similarity, f, (v, w), (v, v))
  }

  lemma StandsBeforeOnce(order: seq<int>, x: int, y: int)
    requires multiset(order)[x] == 1 && multiset(order)[y] == 1
    ensures StandsBefore(order, x, y) ==> !StandsBefore(order, y, x)
  {
    forall i, j | 0 <= i < j < |order| ensures order[i] == order[j] ==> order[i] != x && order[i] != y {
      if order[i] == order[j] {
        StandsTwice(order, i, j);
      }
    }
  }

  lemma StandsTwice(order: seq<int>, i: nat, j: nat)
    requires i < j < |order| && order[i] == order[j]
    ensures multiset(order)[order[i]] >= 2
  {
    assert order == order[..j] + order[j..];
    assert order[..j][i] == order[i] && order[j..][0] == order[i];
    assert order[i] in multiset(order[..j]) && order[i] in multiset(order[j..]);
    assert multiset(order)[order[i]] == multiset(order[..j])[order[i]] + multiset(order[j..])[order[i]];
  }

  /** The lists hold every side of face f as often as the triangle has it. */
  ghost predicate ListsHold(indexArray: seq<int>, f: nat)
    requires |indexArray| % 3 == 0 && 3 * f + 2 < |indexArray|
  {
    forall d: Side :: d in Sides(Corners(indexArray, f)) ==> ListHolds(indexArray, f, d)
  }

  ghost predicate ListHolds(indexArray: seq<int>, f: nat, d: Side)
    requires |indexArray| % 3 == 0 && 3 * f + 2 < |indexArray|
  {
    multiset(PairList(indexArray, |indexArray|, PairOf(d).0, PairOf(d).1))[Signed(f, d)] == Sides(Corners(indexArray, f))[d]
  }

  /** No two different sides of a face with two equal corners are taken before each other. */
  lemma TakenFirstAsymmetric(indexArray: seq<int>, similarity: (int, int) -> real, f: nat, d: Side, e: Side)
    requires |indexArray| % 3 == 0 && 3 * f + 2 < |indexArray| && ListsHold(indexArray, f)
    requires TwoEqualCorners(Corners(indexArray, f))
    requires d in Sides(Corners(indexArray, f)) && e in Sides(Corners(indexArray, f)) && d != e
    ensures TakenFirst(indexArray, similarity, f, d, e) ==> !TakenFirst(indexArray, similarity, f, e, d)
  {
    var p, q := PairOf(d), PairOf(e);
    if p == q {
      hide Sides, TakingOrder, PairList, PairOf;
      var list := PairList(indexArray, |indexArray|, p.0, p.1);
      SidesOnce(Corners(indexArray, f), d);
      SidesOnce(Corners(indexArray, f), e);
      assert ListHolds(indexArray, f, d) && ListHolds(indexArray, f, e);
      TakingOrderIsPermutation(list, similarity);
      StandsBeforeOnce(TakingOrder(list, similarity), Signed(f, d), Signed(f, e));
    } else if p.0 == q.0 {
      hide TakingOrder, PairList, EnteredBefore;
      EnteredBeforeAsymmetric(indexArray, p.0, p.1, q.1);
    }
  }

  /** With two equal corners the three sides are all different. */
  lemma SidesOnce(t: Triple, d: Side)
    requires TwoEqualCorners(t) && d in Sides(t)
    ensures Sides(t)[d] == 1
  {
    var r := DoubleAndSingle(t);
  }

  /** Both sides between two vertices are reached together. */
  lemma ReversedAlike(indexArray: seq<int>, similarity: (int, int) -> real, f: nat, v: int, w: int)
    requires |indexArray| % 3 == 0 && v != w
    ensures TakenFirst(indexArray, similarity, f, (v, w), (v, v)) == TakenFirst(indexArray, similarity, f, (w, v), (v, v))
    ensures TakenFirst(indexArray, similarity, f, (v, v), (v, w)) == TakenFirst(indexArray, similarity, f, (v, v), (w, v))
  {
    hide TakingOrder, PairList, StandsBefore, EnteredBefore;
  }

  /** The listing that ordering cannot put into loop, told from the order in which sides are taken. */
  lemma StuckExactlyThen(
    indexArray: seq<int>, similarity: (int, int) -> real, f: nat, x: Side, y: Side, z: Side)
    requires |indexArray| % 3 == 0 && 3 * f + 2 < |indexArray| && ListsHold(indexArray, f)
    requires multiset{x, y, z} == Sides(Corners(indexArray, f))
    requires TakenFirst(indexArray, similarity, f, x, y) && TakenFirst(indexArray, similarity, f, x, z)
    requires TakenFirst(indexArray, similarity, f, y, z)
    ensures StuckSides(x, y, z) <==> LeftOutOfLoop(indexArray, similarity, f)
  {
    hide TakenFirst, ListsHold, PairOf;
    var t := Corners(indexArray, f);
    SixListings(x, y, z, (t.a, t.b), (t.b, t.c), (t.c, t.a));
    if TwoEqualCorners(t) {
      var (v, w) := DoubleAndSingle(t);
      SixListings(x, y, z, (w, v), (v, w), (v, v));
      TakenFirstAsymmetric(indexArray, similarity, f, (w, v), (v, w));
      TakenFirstAsymmetric(indexArray, similarity, f, (v, w), (v, v));
      ReversedAlike(indexArray, similarity, f, v, w);
    }
  }

  // ---- listings of three sides

  lemma RemoveFirst(x: Side, y: Side, z: Side, q: Side, r: Side)
    requires multiset{x, y, z} == multiset{x, q, r}
    ensures (y == q && z == r) || (y == r && z == q)
  {
    assert multiset{x, y, z} - multiset{x} == multiset{y, z};
    assert multiset{x, q, r} - multiset{x} == multiset{q, r};
    assert y in multiset{q, r};
    assert multiset{y, z} - multiset{y} == multiset{z};
    assert multiset{q, r} - multiset{q} == multiset{r};
    assert multiset{q, r} - multiset{r} == multiset{q};
  }

  /** The three directed sides of a triangle can be listed in six ways. */
  lemma SixListings(x: Side, y: Side, z: Side, p: Side, q: Side, r: Side)
    requires multiset{x, y, z} == multiset{p, q, r}
    ensures
      || (x == p && ((y == q && z == r) || (y == r && z == q)))
      || (x == q && ((y == p && z == r) || (y == r && z == p)))
      || (x == r && ((y == p && z == q) || (y == q && z == p)))
  {
    assert x in multiset{p, q, r};
    if x == p {
      RemoveFirst(x, y, z, q, r);
    } else if x == q {
      assert multiset{p, q, r} == multiset{q, p, r};
      RemoveFirst(x, y, z, p, r);
    } else {
      assert multiset{p, q, r} == multiset{r, p, q};
      RemoveFirst(x, y, z, p, q);
    }
  }

  /** A side, its reverse, and the side that stays where the first one ends. */
  predicate StuckSides(x: Side, y: Side, z: Side) {
    x.0 != x.1 && y == (x.1, x.0) && z == (x.1, x.1)
  }

  lemma OneTriangleLists()
    ensures PairList([1, 1, 0], 3, 0, 1) == [Not(0), 0]
  {
    var s := [1, 1, 0];
    assert SideAt(s, 0) == (1, 1) && SideAt(s, 1) == (1, 0) && SideAt(s, 2) == (0, 1);
    assert PairList(s, 1, 0, 1) == [];
    assert PairList(s, 2, 0, 1) == [Not(0)];
  }

  lemma OneTriangleOrder(similarity: (int, int) -> real)
    ensures TakingOrder([Not(0), 0], similarity) == [0, Not(0)]
  {
    var rest := [Not(0), 0][..1];
    assert rest == [Not(0)] && rest[1..] == [];
    assert BestMate(rest, 0, similarity) == 0;
    assert FastRemove(rest, 0) == [];
  }

  /** The exception occurs for a single triangle, whatever the normals are. */
  lemma OneTriangleIsLeftOut(similarity: (int, int) -> real)
    ensures LeftOutOfLoop([1, 1, 0], similarity, 0)
  {
    hide PairList, TakingOrder;
    var s := [1, 1, 0];
    assert Corners(s, 0) == Triple(1, 1, 0);
    OneTriangleLists();
    OneTriangleOrder(similarity);
    var order := [0, Not(0)];
    assert order[0] == 0 && order[1] == Not(0);
    assert StandsBefore(order, 0, Not(0));
  }
}
