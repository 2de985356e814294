/** MeshAlg::weldBoundaryEdges: pairing up boundary edges that have become
    mates, by a swap-removing double loop over the edges of each lower vertex. */
module WeldEdges {
  import opened Mesh
  import opened Pairing
  import opened Adjacency

  // ---- mates

  /** The direction in which the only face of a boundary edge runs it. */
  function OpenDirection(e: Edge): Side {
    if e.f0 != NONE then (e.v0, e.v1) else (e.v1, e.v0)
  }

  function Flip(d: Side): Side {
    (d.1, d.0)
  }

  /** Two boundary edges can be one edge when their faces run them in opposite directions. */
  predicate Mates(e: Edge, g: Edge) {
    OpenDirection(g) == Flip(OpenDirection(e))
  }

  function Lower(e: Edge): (v: int)
    ensures v <= e.v0 && v <= e.v1 && (v == e.v0 || v == e.v1)
  {
    if e.v0 < e.v1 then e.v0 else e.v1
  }

  predicate OneFace(e: Edge) {
    (e.f0 == NONE) != (e.f1 == NONE)
  }

  /** It is the direction of the side that a face has. */
  lemma OpenDirectionIsRun(edges: seq<Edge>, r: int)
    requires IsRef(edges, r) && OneFace(edges[Index(r)]) && SideFace(edges, r) != NONE
    ensures OpenDirection(edges[Index(r)]) == Direction(edges, r)
  {
  }

  /** The four cases of orientation. */
  method MatchEdges(edgei: Edge, edgej: Edge) returns (match_: bool, reversej: bool)
    ensures match_ <==> Mates(edgei, edgej)
    ensures match_ ==> (reversej <==> ((edgei.f0 != NONE) <==> (edgej.f0 != NONE)))
    ensures match_ ==> if reversej then edgej.v0 == edgei.v1 && edgej.v1 == edgei.v0
                       else edgej.v0 == edgei.v0 && edgej.v1 == edgei.v1
    ensures match_ ==> Lower(edgei) == Lower(edgej)
  {
    match_, reversej := false, false;
    var u, v := edgei.v0, edgei.v1;
    if edgei.f0 != NONE {
      if edgej.f0 != NONE {
        if edgej.v0 == v && edgej.v1 == u {
          match_, reversej := true, true;
        }
      } else {
        if edgej.v0 == u && edgej.v1 == v {
          match_ := true;
        }
      }
    } else {
      if edgej.f0 != NONE {
        if edgej.v0 == u && edgej.v1 == v {
          match_ := true;
        }
      } else {
        if edgej.v0 == v && edgej.v1 == u {
          match_, reversej := true, true;
        }
      }
    }
  }

  function Joint(edgei: Edge, edgej: Edge): Edge {
    var fj := if edgej.f0 == NONE then edgej.f1 else edgej.f0;
    if edgei.f0 == NONE then edgei.(f0 := fj) else edgei.(f1 := fj)
  }

  // ---- a renaming under construction

  /** newIndex is settled for the old edges in done: a renaming of exactly those onto the new array. */
  ghost predicate Settled(newIndex: seq<int>, done: set<int>, before: seq<Edge>, after: seq<Edge>) {
    && |newIndex| == |before|
    && (forall r :: IsRef(before, r) && Index(r) in done ==> RenamesRef(newIndex, before, after, r))
    && (forall r, s :: IsRef(before, r) && IsRef(before, s) && Index(r) in done && Index(s) in done ==>
          KeepsApart(newIndex, before, r, s))
    && forall r :: IsRef(after, r) ==> SettledSource(newIndex, done, before, after, r)
  }

  ghost predicate SettledSource(newIndex: seq<int>, done: set<int>, before: seq<Edge>, after: seq<Edge>, r: int)
    requires |newIndex| == |before| && IsRef(after, r)
  {
    exists s :: Index(s) in done && ComesFrom(newIndex, before, after, r, s)
  }

  lemma SettledSourceStays(
    newIndex: seq<int>, done: set<int>, before: seq<Edge>, after: seq<Edge>, r: int,
    newIndex': seq<int>, done': set<int>, after': seq<Edge>)
    requires |newIndex| == |newIndex'| == |before| && IsRef(after, r) && SettledSource(newIndex, done, before, after, r)
    requires done <= done' && after <= after' && forall e :: e in done && 0 <= e < |before| ==> newIndex'[e] == newIndex[e]
    ensures SettledSource(newIndex', done', before, after', r)
  {
    var s :| Index(s) in done && ComesFrom(newIndex, before, after, r, s);
    assert ComesFrom(newIndex', before, after', r, s);
  }

  /** Settling more old edges onto one appended edge. */
  lemma SettleMore(
    newIndex: seq<int>, done: set<int>, before: seq<Edge>, after: seq<Edge>,
    newIndex': seq<int>, more: set<int>, edge: Edge)
    requires Settled(newIndex, done, before, after) && more !! done
    requires |newIndex'| == |before| && forall e :: 0 <= e < |before| && e !in more ==> newIndex'[e] == newIndex[e]
    requires forall e :: e in more ==> 0 <= e < |before| && Index(newIndex'[e]) == |after|
    requires forall r :: Index(r) in more ==> RenamesRef(newIndex', before, after + [edge], r)
    requires forall r, s :: Index(r) in more && Index(s) in more ==> KeepsApart(newIndex', before, r, s)
    requires exists s :: Index(s) in more && ComesFrom(newIndex', before, after + [edge], |after|, s)
    requires exists s :: Index(s) in more && ComesFrom(newIndex', before, after + [edge], Not(|after|), s)
    ensures Settled(newIndex', done + more, before, after + [edge])
  {
    var after' := after + [edge];
    forall r | IsRef(before, r) && Index(r) in done + more ensures RenamesRef(newIndex', before, after', r) {
      if Index(r) in done {
        assert RenamesRef(newIndex, before, after, r);
      }
    }
    forall r, s | IsRef(before, r) && IsRef(before, s) && Index(r) in done + more && Index(s) in done + more
      ensures KeepsApart(newIndex', before, r, s)
    {
      if Index(r) in done && Index(s) in done {
        assert KeepsApart(newIndex, before, r, s);
      } else if Index(r) in done {
        assert RenamesRef(newIndex, before, after, r);
      } else if Index(s) in done {
        assert RenamesRef(newIndex, before, after, s);
      }
    }
    forall r | IsRef(after', r) ensures SettledSource(newIndex', done + more, before, after', r) {
      if IsRef(after, r) {
        SettledSourceStays(newIndex, done, before, after, r, newIndex', done + more, after');
      }
    }
  }

  /** Copying an edge unchanged. */
  lemma SettleCopy(newIndex: seq<int>, done: set<int>, before: seq<Edge>, after: seq<Edge>, e: int)
    requires Settled(newIndex, done, before, after) && 0 <= e < |before| && e !in done
    ensures Settled(newIndex[e := |after|], done + {e}, before, after + [before[e]])
  {
    var newIndex', after' := newIndex[e := |after|], after + [before[e]];
    forall r | Index(r) in {e} ensures RenamesRef(newIndex', before, after', r) {
    }
    assert Index(e) in {e} && ComesFrom(newIndex', before, after', |after|, e);
    assert Index(Not(e)) in {e} && ComesFrom(newIndex', before, after', Not(|after|), Not(e));
    SettleMore(newIndex, done, before, after, newIndex', {e}, before[e]);
  }

  /** The reference to the only occupied side of edge i. */
  function OccupiedRef(e: Edge, i: int): int {
    if e.f0 != NONE then i else Not(i)
  }

  function JoinIndex(newIndex: seq<int>, n: int, i: int, j: int, reversej: bool): (newIndex': seq<int>)
    requires 0 <= i < |newIndex| && 0 <= j < |newIndex|
    ensures |newIndex'| == |newIndex|
  {
    newIndex[i := n][j := if reversej then Not(n) else n]
  }

  /** Edges i and j of the array are mates, and reversej says whether they run opposite ways. */
  ghost predicate Joinable(before: seq<Edge>, i: int, j: int, reversej: bool) {
    && 0 <= i < |before| && 0 <= j < |before| && i != j
    && OneFace(before[i]) && OneFace(before[j]) && Mates(before[i], before[j])
    && (reversej <==> ((before[i].f0 != NONE) <==> (before[j].f0 != NONE)))
  }

  /** In all four cases each mate keeps its own face and direction. */
  lemma JoinRenames(newIndex: seq<int>, before: seq<Edge>, after: seq<Edge>, i: int, j: int, reversej: bool, r: int)
    requires |newIndex| == |before| && Joinable(before, i, j, reversej)
    requires Index(r) == i || Index(r) == j
    ensures RenamesRef(JoinIndex(newIndex, |after|, i, j, reversej), before, after + [Joint(before[i], before[j])], r)
  {
    var newIndex', after' := JoinIndex(newIndex, |after|, i, j, reversej), after + [Joint(before[i], before[j])];
    assert after'[|after|] == Joint(before[i], before[j]);
    if Index(r) == i {
      assert Renamed(newIndex', r) == if r >= 0 then |after| else Not(|after|);
    } else {
      assert Renamed(newIndex', r) == if (r >= 0) == reversej then Not(|after|) else |after|;
    }
  }

  lemma JoinOccupied(newIndex: seq<int>, before: seq<Edge>, n: nat, i: int, j: int, reversej: bool)
    requires |newIndex| == |before| && Joinable(before, i, j, reversej)
    ensures var ri, rj := OccupiedRef(before[i], i), OccupiedRef(before[j], j);
      var newIndex' := JoinIndex(newIndex, n, i, j, reversej);
      && Renamed(newIndex', ri) == OccupiedRef(before[i], n)
      && Renamed(newIndex', rj) == Not(OccupiedRef(before[i], n))
  {
  }

  /** Joining two mates: each keeps its own face on its own side, whichever way round they are. */
  lemma SettleJoin(newIndex: seq<int>, done: set<int>, before: seq<Edge>, after: seq<Edge>, i: int, j: int, reversej: bool)
    requires Settled(newIndex, done, before, after)
    requires Joinable(before, i, j, reversej) && i !in done && j !in done
    ensures Settled(JoinIndex(newIndex, |after|, i, j, reversej), done + {i, j}, before,
              after + [Joint(before[i], before[j])])
  {
    var n, edge := |after|, Joint(before[i], before[j]);
    var newIndex', after' := JoinIndex(newIndex, n, i, j, reversej), after + [edge];
    var ri, rj := OccupiedRef(before[i], i), OccupiedRef(before[j], j);
    forall r | Index(r) in {i, j} ensures RenamesRef(newIndex', before, after', r) {
      JoinRenames(newIndex, before, after, i, j, reversej, r);
    }
    JoinOccupied(newIndex, before, n, i, j, reversej);
    forall r, s | Index(r) in {i, j} && Index(s) in {i, j} ensures KeepsApart(newIndex', before, r, s) {
      OnlyOccupied(before, i, r);
      OnlyOccupied(before, j, r);
      OnlyOccupied(before, i, s);
      OnlyOccupied(before, j, s);
    }
    assert Index(ri) in {i, j} && ComesFrom(newIndex', before, after', OccupiedRef(before[i], n), ri);
    assert Index(rj) in {i, j} && ComesFrom(newIndex', before, after', Not(OccupiedRef(before[i], n)), rj);
    SettleMore(newIndex, done, before, after, newIndex', {i, j}, edge);
  }

  lemma OnlyOccupied(before: seq<Edge>, i: int, r: int)
    requires 0 <= i < |before| && OneFace(before[i])
    ensures Index(r) == i && SideFace(before, r) != NONE ==> r == OccupiedRef(before[i], i)
  {
  }

  lemma AllSettled(newIndex: seq<int>, done: set<int>, before: seq<Edge>, after: seq<Edge>)
    requires Settled(newIndex, done, before, after) && forall e :: 0 <= e < |before| ==> e in done
    ensures Relabels(newIndex, before, after)
  {
    forall r | IsRef(after, r) ensures exists s :: ComesFrom(newIndex, before, after, r, s) {
      assert SettledSource(newIndex, done, before, after, r);
    }
  }

  // ---- the boundary edges of one lower vertex

  /** Different boundary edges with the given lower vertex, none of them settled. */
  ghost predicate Pending(before: seq<Edge>, key: int, list: seq<int>, done: set<int>) {
    && NoRepeats(list)
    && forall x :: x in list ==> IsPending(before, key, x) && x !in done
  }

  predicate IsPending(before: seq<Edge>, key: int, x: int) {
    0 <= x < |before| && OneFace(before[x]) && Lower(before[x]) == key
  }

  predicate MatesAt(before: seq<Edge>, x: int, y: int) {
    0 <= x < |before| && 0 <= y < |before| && Mates(before[x], before[y])
  }

  /** No mate for any of the first n edges comes after it. */
  ghost predicate NoMatesUpTo(before: seq<Edge>, list: seq<int>, n: int) {
    forall p, q :: 0 <= p < n && p < q < |list| ==> !MatesAt(before, list[p], list[q])
  }

  /** Removing a later and then an earlier element leaves what comes before them in place. */
  lemma RemoveTwo(list: seq<int>, i: int, j: int)
    requires 0 <= i < j < |list| && NoRepeats(list)
    ensures var list' := FastRemove(FastRemove(list, j), i);
      && NoRepeats(list')
      && (forall p :: 0 <= p < i ==> list'[p] == list[p])
      && (forall x :: x in list' <==> x in list && x != list[i] && x != list[j])
      && (forall q :: i <= q < |list'| ==> exists p :: i <= p < |list| && list[p] == list'[q])
  {
    RemoveOne(list, j);
    RemoveOne(FastRemove(list, j), i);
    var list1 := FastRemove(list, j);
    var list' := FastRemove(list1, i);
    forall q | i <= q < |list'| ensures exists p :: i <= p < |list| && list[p] == list'[q] {
      var p1 := if q == i then |list1| - 1 else q;
      assert list'[q] == list1[p1];
      assert list1[p1] == list[if p1 == j then |list| - 1 else p1];
    }
  }

  lemma RemoveOne(list: seq<int>, j: int)
    requires 0 <= j < |list| && NoRepeats(list)
    ensures NoRepeats(FastRemove(list, j))
    ensures forall p :: 0 <= p < j ==> FastRemove(list, j)[p] == list[p]
    ensures forall x :: x in FastRemove(list, j) <==> x in list && x != list[j]
  {
    var list' := FastRemove(list, j);
    forall p | 0 <= p < |list| && p != j ensures list[p] in list' {
      assert list[p] == list'[if p == |list| - 1 then j else p];
    }
    forall p | 0 <= p < |list'| ensures list'[p] in list && list'[p] != list[j] {
      assert list'[p] == list[if p == j then |list| - 1 else p];
    }
  }

  /** Pairs up the mates in the list of one lower vertex; what remains has none. */
  method PairList(
    before: seq<Edge>, list0: seq<int>, newIndex0: seq<int>, after0: seq<Edge>, ghost key: int, ghost done0: set<int>)
    returns (boundaryEdge: seq<int>, newEdgeIndex: seq<int>, edgeArray: seq<Edge>, ghost done: set<int>)
    requires Settled(newIndex0, done0, before, after0) && Pending(before, key, list0, done0)
    ensures Settled(newEdgeIndex, done, before, edgeArray) && Pending(before, key, boundaryEdge, done)
    ensures done == done0 + (set x | x in list0 && x !in boundaryEdge)
    ensures forall x :: x in boundaryEdge ==> x in list0
    ensures NoMatesUpTo(before, boundaryEdge, |boundaryEdge|)
    ensures after0 <= edgeArray && forall e :: |after0| <= e < |edgeArray| ==> !edgeArray[e].Boundary()
  {
    boundaryEdge, newEdgeIndex, edgeArray, done := list0, newIndex0, after0, done0;
    var i := 0;
    while i < |boundaryEdge|
      invariant 0 <= i <= |boundaryEdge|
      invariant Settled(newEdgeIndex, done, before, edgeArray) && Pending(before, key, boundaryEdge, done)
      invariant done == done0 + (set x | x in list0 && x !in boundaryEdge)
      invariant forall x :: x in boundaryEdge ==> x in list0
      invariant NoMatesUpTo(before, boundaryEdge, i)
      invariant after0 <= edgeArray && forall e :: |after0| <= e < |edgeArray| ==> !edgeArray[e].Boundary()
      decreases |boundaryEdge| - i
    {
      var found, j, reversej := FindMateOf(before, boundaryEdge, i, key, done);
      if found {
        var ei, ej := boundaryEdge[i], boundaryEdge[j];
        SettleJoin(newEdgeIndex, done, before, edgeArray, ei, ej, reversej);
        var e := |edgeArray|;
        edgeArray := edgeArray + [Joint(before[ei], before[ej])];
        newEdgeIndex := newEdgeIndex[ei := e];
        newEdgeIndex := newEdgeIndex[ej := if reversej then Not(e) else e];
        RemoveTwo(boundaryEdge, i, j);
        done := done + {ei, ej};
        boundaryEdge := FastRemove(boundaryEdge, j);
        boundaryEdge := FastRemove(boundaryEdge, i);
      } else {
        i := i + 1;
      }
    }
  }

  /** The inner loop: the first later edge in the list that is the reverse of edge i. */
  method FindMateOf(before: seq<Edge>, boundaryEdge: seq<int>, i: int, ghost key: int, ghost done: set<int>)
    returns (found: bool, j: int, reversej: bool)
    requires 0 <= i < |boundaryEdge| && Pending(before, key, boundaryEdge, done)
    ensures found ==> i < j < |boundaryEdge| && Joinable(before, boundaryEdge[i], boundaryEdge[j], reversej)
    ensures !found ==> forall q :: i < q < |boundaryEdge| ==> !MatesAt(before, boundaryEdge[i], boundaryEdge[q])
  {
    var ei := boundaryEdge[i];
    assert ei in boundaryEdge && IsPending(before, key, ei);
    j := i + 1;
    while j < |boundaryEdge|
      invariant i < j <= |boundaryEdge|
      invariant forall q :: i < q < j ==> !MatesAt(before, ei, boundaryEdge[q])
    {
      var ej := boundaryEdge[j];
      assert ej in boundaryEdge && IsPending(before, key, ej);
      found, reversej := MatchEdges(before[ei], before[ej]);
      if found {
        return;
      }
      j := j + 1;
    }
    found, reversej := false, false;
  }

  // ---- the whole array

  type Buckets = map<int, seq<int>>

  /** Every old edge among the first n is settled or waits in the bucket of its lower vertex. */
  ghost predicate Bucketed(before: seq<Edge>, n: int, table: Buckets, done: set<int>)
    requires n <= |before|
  {
    && (forall key :: key in table ==> Pending(before, key, table[key], done))
    && forall e :: 0 <= e < n ==> e in done || Waits(before, table, e)
  }

  predicate Waits(before: seq<Edge>, table: Buckets, e: int)
    requires 0 <= e < |before|
  {
    Lower(before[e]) in table && e in table[Lower(before[e])]
  }

  lemma BucketElementsInRange(before: seq<Edge>, n: int, table: Buckets, done: set<int>)
    requires n <= |before| && Bucketed(before, n, table, done)
    ensures forall key, x :: key in table && x in table[key] ==> 0 <= x < |before| && x !in done && Lower(before[x]) == key
  {
    forall key, x | key in table && x in table[key] ensures 0 <= x < |before| && x !in done && Lower(before[x]) == key {
      assert Pending(before, key, table[key], done) && IsPending(before, key, x);
    }
  }

  /** Interior edges go straight to the result, open ones into buckets by their lower vertex. */
  method Collect(before: seq<Edge>)
    returns (newEdgeIndex: seq<int>, edgeArray: seq<Edge>, table: Buckets, ghost done: set<int>)
    requires forall e :: 0 <= e < |before| ==> HasFace(before[e])
    ensures Settled(newEdgeIndex, done, before, edgeArray) && Bucketed(before, |before|, table, done)
    ensures forall e :: 0 <= e < |edgeArray| ==> !edgeArray[e].Boundary()
  {
    hide Settled, Lower, HasFace, Bucketed;
    newEdgeIndex, edgeArray, table, done := seq(|before|, _ => 0), [], map[], {};
    NothingCollected(before, newEdgeIndex);
    for e := 0 to |before|
      invariant |newEdgeIndex| == |before|
      invariant Settled(newEdgeIndex, done, before, edgeArray) && Bucketed(before, e, table, done)
      invariant forall x :: x in done ==> x < e
      invariant forall key, x :: key in table && x in table[key] ==> x < e
      invariant forall k :: 0 <= k < |edgeArray| ==> !edgeArray[k].Boundary()
    {
      if before[e].Boundary() {
        var vLow := Lower(before[e]);
        BucketGrows(before, e, table, done);
        if vLow !in table {
          table := table[vLow := []];
        }
        table := table[vLow := table[vLow] + [e]];
      } else {
        SettleCopy(newEdgeIndex, done, before, edgeArray, e);
        CopiedWaitsNot(before, e, table, done);
        newEdgeIndex := newEdgeIndex[e := |edgeArray|];
        edgeArray := edgeArray + [before[e]];
        done := done + {e};
      }
    }
  }

  lemma NothingCollected(before: seq<Edge>, newIndex: seq<int>)
    requires |newIndex| == |before|
    ensures Settled(newIndex, {}, before, []) && Bucketed(before, 0, map[], {})
  {
  }

  /** An open edge joins the bucket of its lower vertex. */
  lemma BucketGrows(before: seq<Edge>, e: nat, table: Buckets, done: set<int>)
    requires e < |before| && HasFace(before[e]) && before[e].Boundary() && Bucketed(before, e, table, done) && e !in done
    requires forall key, x :: key in table && x in table[key] ==> x < e
    ensures var v := Lower(before[e]);
      var list := if v in table then table[v] else [];
      var table' := (if v in table then table else table[v := []])[v := list + [e]];
      && Bucketed(before, e + 1, table', done)
      && forall key, x :: key in table' && x in table'[key] ==> x < e + 1
  {
    var v := Lower(before[e]);
    var list := if v in table then table[v] else [];
    assert forall x :: x in list + [e] ==> x in list || x == e;
    AppendFresh(list, e);
    assert Pending(before, v, list + [e], done);
    var table' := (if v in table then table else table[v := []])[v := list + [e]];
    forall g | 0 <= g < e + 1 ensures g in done || Waits(before, table', g) {
      assert g < e ==> g in done || Waits(before, table, g);
      assert e in list + [e];
    }
  }

  lemma CopiedWaitsNot(before: seq<Edge>, e: nat, table: Buckets, done: set<int>)
    requires e < |before| && Bucketed(before, e, table, done)
    requires forall key, x :: key in table && x in table[key] ==> x < e
    ensures Bucketed(before, e + 1, table, done + {e})
  {
    forall key | key in table ensures Pending(before, key, table[key], done + {e}) {
      assert Pending(before, key, table[key], done);
    }
    forall g | 0 <= g < e + 1 ensures g in done + {e} || Waits(before, table, g) {
      assert g < e ==> g in done || Waits(before, table, g);
    }
  }

  method Choose<T>(s: set<T>) returns (x: T)
    requires s != {}
    ensures x in s
  {
    x :| x in s;
  }

  /** Settling edges of one bucket leaves the others waiting. */
  lemma OtherBucketsWait(
    before: seq<Edge>, table: Buckets, done: set<int>, key: int, list: seq<int>, done': set<int>)
    requires Bucketed(before, |before|, table, done) && key in table
    requires done' == done + (set x | x in table[key] && x !in list)
    requires Pending(before, key, list, done') && forall x :: x in list ==> x in table[key]
    ensures Bucketed(before, |before|, table[key := list], done')
  {
    BucketElementsInRange(before, |before|, table, done);
    var table' := table[key := list];
    forall k | k in table' ensures Pending(before, k, table'[k], done') {
      assert Pending(before, k, table[k], done);
    }
    forall e | 0 <= e < |before| ensures e in done' || Waits(before, table', e) {
      assert e in done || Waits(before, table, e);
    }
  }

  /** Pairs off the mates in every bucket. */
  method PairBuckets(
    before: seq<Edge>, table0: Buckets, newIndex0: seq<int>, after0: seq<Edge>, ghost done0: set<int>)
    returns (table: Buckets, newEdgeIndex: seq<int>, edgeArray: seq<Edge>, ghost done: set<int>)
    requires Settled(newIndex0, done0, before, after0) && Bucketed(before, |before|, table0, done0)
    requires forall e :: 0 <= e < |after0| ==> !after0[e].Boundary()
    ensures Settled(newEdgeIndex, done, before, edgeArray) && Bucketed(before, |before|, table, done)
    ensures forall e :: 0 <= e < |edgeArray| ==> !edgeArray[e].Boundary()
    ensures forall key :: key in table ==> NoMatesUpTo(before, table[key], |table[key]|)
  {
    table, newEdgeIndex, edgeArray, done := table0, newIndex0, after0, done0;
    var keys := table.Keys;
    while keys != {}
      invariant keys <= table.Keys
      invariant Settled(newEdgeIndex, done, before, edgeArray) && Bucketed(before, |before|, table, done)
      invariant forall e :: 0 <= e < |edgeArray| ==> !edgeArray[e].Boundary()
      invariant forall key :: key in table && key !in keys ==> NoMatesUpTo(before, table[key], |table[key]|)
      decreases |keys|
    {
      var key := Choose(keys);
      ghost var earlier := done;
      var boundaryEdge;
      assert Pending(before, key, table[key], done);
      boundaryEdge, newEdgeIndex, edgeArray, done := PairList(before, table[key], newEdgeIndex, edgeArray, key, done);
      OtherBucketsWait(before, table, earlier, key, boundaryEdge, done);
      table, keys := table[key := boundaryEdge], keys - {key};
    }
  }

  /** The edges of the new array from position k on are copies of different old edges. */
  ghost predicate CopiedFrom(before: seq<Edge>, after: seq<Edge>, k: nat, copied: seq<int>) {
    && |after| == k + |copied| && NoRepeats(copied)
    && forall m :: 0 <= m < |copied| ==> 0 <= copied[m] < |before| && after[k + m] == before[copied[m]]
  }

  ghost predicate AllOneFace(before: seq<Edge>, copied: seq<int>) {
    forall m :: 0 <= m < |copied| ==> 0 <= copied[m] < |before| && OneFace(before[copied[m]])
  }

  /** Copies what remains in one bucket to the end of the array. */
  method CopyBucket(
    before: seq<Edge>, boundaryEdge: seq<int>, newIndex0: seq<int>, after0: seq<Edge>,
    ghost key: int, ghost done0: set<int>, ghost k: nat, ghost copied0: seq<int>)
    returns (newEdgeIndex: seq<int>, edgeArray: seq<Edge>, ghost done: set<int>, ghost copied: seq<int>)
    requires Settled(newIndex0, done0, before, after0) && Pending(before, key, boundaryEdge, done0)
    requires CopiedFrom(before, after0, k, copied0) && AllOneFace(before, copied0)
    requires forall x :: x in copied0 ==> x in done0
    ensures Settled(newEdgeIndex, done, before, edgeArray)
    ensures done == done0 + (set x | x in boundaryEdge)
    ensures CopiedFrom(before, edgeArray, k, copied) && AllOneFace(before, copied) && after0 <= edgeArray
    ensures forall x :: x in copied <==> x in copied0 || x in boundaryEdge
  {
    newEdgeIndex, edgeArray, done, copied := newIndex0, after0, done0, copied0;
    for b := 0 to |boundaryEdge|
      invariant Settled(newEdgeIndex, done, before, edgeArray)
      invariant done == done0 + (set x | x in boundaryEdge[..b])
      invariant CopiedFrom(before, edgeArray, k, copied) && AllOneFace(before, copied) && after0 <= edgeArray
      invariant copied == copied0 + boundaryEdge[..b]
    {
      var e := boundaryEdge[b];
      assert e in boundaryEdge && IsPending(before, key, e);
      assert boundaryEdge[..b + 1] == boundaryEdge[..b] + [e];
      assert e !in boundaryEdge[..b];
      assert e !in copied;
      AppendFresh(copied, e);
      SettleCopy(newEdgeIndex, done, before, edgeArray, e);
      newEdgeIndex := newEdgeIndex[e := |edgeArray|];
      edgeArray := edgeArray + [before[e]];
      done, copied := done + {e}, copied + [e];
    }
    assert boundaryEdge[..|boundaryEdge|] == boundaryEdge;
  }

  /** Edges still waiting have no mate and stay open. */
  method CopyRemaining(
    before: seq<Edge>, table: Buckets, newIndex0: seq<int>, after0: seq<Edge>, ghost done0: set<int>)
    returns (newEdgeIndex: seq<int>, edgeArray: seq<Edge>, ghost done: set<int>, ghost copied: seq<int>)
    requires Settled(newIndex0, done0, before, after0) && Bucketed(before, |before|, table, done0)
    ensures Settled(newEdgeIndex, done, before, edgeArray) && forall e :: 0 <= e < |before| ==> e in done
    ensures CopiedFrom(before, edgeArray, |after0|, copied) && AllOneFace(before, copied) && after0 <= edgeArray
    ensures forall x :: x in copied ==> 0 <= x < |before| && Waits(before, table, x)
  {
    newEdgeIndex, edgeArray, done, copied := newIndex0, after0, done0, [];
    var keys := table.Keys;
    while keys != {}
      invariant keys <= table.Keys
      invariant Settled(newEdgeIndex, done, before, edgeArray)
      invariant forall key :: key in keys ==> Pending(before, key, table[key], done)
      invariant forall e :: 0 <= e < |before| ==> e in done || (Waits(before, table, e) && Lower(before[e]) in keys)
      invariant CopiedFrom(before, edgeArray, |after0|, copied) && AllOneFace(before, copied) && after0 <= edgeArray
      invariant forall x :: x in copied ==> x in done && 0 <= x < |before| && Waits(before, table, x)
      decreases |keys|
    {
      var key := Choose(keys);
      ghost var earlier := done;
      assert Pending(before, key, table[key], done);
      newEdgeIndex, edgeArray, done, copied :=
        CopyBucket(before, table[key], newEdgeIndex, edgeArray, key, done, |after0|, copied);
      keys := keys - {key};
      forall k | k in keys ensures Pending(before, k, table[k], done) {
        assert Pending(before, k, table[k], earlier) && Pending(before, key, table[key], earlier);
      }
      forall x | x in copied ensures x in done && 0 <= x < |before| && Waits(before, table, x) {
        assert x in table[key] ==> IsPending(before, key, x);
      }
    }
  }

  /** No two different boundary edges are mates. */
  ghost predicate NoMatesLeft(edges: seq<Edge>) {
    forall e, g :: 0 <= e < |edges| && 0 <= g < |edges| && e != g && edges[e].Boundary() && edges[g].Boundary() ==>
      !Mates(edges[e], edges[g])
  }

  lemma MatesShareLower(e: Edge, g: Edge)
    requires Mates(e, g)
    ensures Lower(e) == Lower(g) && Mates(g, e)
  {
  }

  /** Different edges still waiting at the end are no mates. */
  lemma WaitingAreNotMates(before: seq<Edge>, table: Buckets, x: int, y: int)
    requires forall key :: key in table ==> NoMatesUpTo(before, table[key], |table[key]|)
    requires 0 <= x < |before| && 0 <= y < |before| && x != y && Waits(before, table, x) && Waits(before, table, y)
    ensures !Mates(before[x], before[y])
  {
    if Mates(before[x], before[y]) {
      MatesShareLower(before[x], before[y]);
      var list := table[Lower(before[x])];
      var p :| 0 <= p < |list| && list[p] == x;
      var q :| 0 <= q < |list| && list[q] == y;
      assert MatesAt(before, list[p], list[q]) && MatesAt(before, list[q], list[p]);
    }
  }

  lemma RestHasNoMates(before: seq<Edge>, table: Buckets, after: seq<Edge>, k: nat, copied: seq<int>)
    requires forall key :: key in table ==> NoMatesUpTo(before, table[key], |table[key]|)
    requires CopiedFrom(before, after, k, copied) && AllOneFace(before, copied)
    requires forall e :: 0 <= e < k ==> !after[e].Boundary()
    requires forall x :: x in copied ==> 0 <= x < |before| && Waits(before, table, x)
    ensures NoMatesLeft(after) && BoundaryLast(after)
  {
    assert forall e :: k <= e < |after| ==> after[e] == before[copied[e - k]];
    forall e, g | k <= e < |after| && k <= g < |after| && e != g ensures !Mates(after[e], after[g]) {
      var x, y := copied[e - k], copied[g - k];
      assert x in copied && y in copied;
      WaitingAreNotMates(before, table, x, y);
    }
    assert BoundaryFrom(after, k);
  }

  /** The renumbered edges of the mesh. */
  method PairBoundaryEdges(before: seq<Edge>) returns (newEdgeIndex: seq<int>, edgeArray: seq<Edge>)
    requires forall e :: 0 <= e < |before| ==> HasFace(before[e])
    ensures Relabels(newEdgeIndex, before, edgeArray)
    ensures NoMatesLeft(edgeArray) && BoundaryLast(edgeArray)
  {
    var table;
    ghost var done, copied;
    newEdgeIndex, edgeArray, table, done := Collect(before);
    table, newEdgeIndex, edgeArray, done := PairBuckets(before, table, newEdgeIndex, edgeArray, done);
    ghost var k := |edgeArray|;
    newEdgeIndex, edgeArray, done, copied := CopyRemaining(before, table, newEdgeIndex, edgeArray, done);
    RestHasNoMates(before, table, edgeArray, k, copied);
    AllSettled(newEdgeIndex, done, before, edgeArray);
  }
}
