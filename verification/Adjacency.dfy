/** MeshAlg::computeAdjacency: from a triangle list to faces, edges and
    vertices that refer to each other. */
module Adjacency {
  import opened Mesh
  import opened EdgeTable
  import opened Pairing
  import opened FaceOrder

  /** A triangle list over n vertices, of a length an int can hold. */
  ghost predicate IsTriangleList(n: int, indexArray: seq<int>) {
    && |indexArray| % 3 == 0 && |indexArray| <= MAX_INT
    && forall i :: 0 <= i < |indexArray| ==> 0 <= indexArray[i] < n
  }

  const FREE := Triple(NONE, NONE, NONE)

  /** Every remaining side waits in the list of its vertex pair, and nothing else does. */
  ghost predicate TableCounts(table: seq<Row>, rem: Remaining) {
    forall a, b :: a <= b ==> Counts(multiset(ListOf(table, a, b)), rem, a, b)
  }

  // ---- filling the edge table

  ghost function WithSide(rem: Remaining, f: int, d: Side): (rem': Remaining)
    requires 0 <= f < |rem|
    ensures |rem'| == |rem|
  {
    rem[f := rem[f] + multiset{d}]
  }

  lemma InsertKeepsCounts(list: seq<int>, rem: Remaining, a: int, b: int, x: int)
    requires a <= b && Counts(multiset(list), rem, a, b) && Index(x) < |rem| && (a == b ==> x < 0)
    ensures Counts(multiset(list + [x]), WithSide(rem, Index(x), SideOf(a, b, x)), a, b)
  {
    var rem' := WithSide(rem, Index(x), SideOf(a, b, x));
    assert multiset(list + [x]) == multiset(list) + multiset{x};
    forall f | 0 <= f < |rem| ensures CountOf(multiset(list + [x]), rem', a, b, f) {
      assert CountOf(multiset(list), rem, a, b, f);
    }
  }

  lemma OtherCountsStay(list: multiset<int>, rem: Remaining, rem': Remaining, c: int, d: int)
    requires Counts(list, rem, c, d) && |rem'| == |rem|
    requires forall f :: 0 <= f < |rem| ==> rem'[f][(c, d)] == rem[f][(c, d)] && rem'[f][(d, c)] == rem[f][(d, c)]
    ensures Counts(list, rem', c, d)
  {
    forall f | 0 <= f < |rem| ensures CountOf(list, rem', c, d, f) {
      assert CountOf(list, rem, c, d, f);
    }
  }

  lemma InsertKeepsTableCounts(table: seq<Row>, table': seq<Row>, rem: Remaining, lo: int, hi: int, x: int)
    requires TableCounts(table, rem) && lo <= hi && Index(x) < |rem| && (lo == hi ==> x < 0)
    requires forall a, b :: ListOf(table', a, b) == ListOf(table, a, b) + (if a == lo && b == hi then [x] else [])
    ensures TableCounts(table', WithSide(rem, Index(x), SideOf(lo, hi, x)))
  {
    var rem' := WithSide(rem, Index(x), SideOf(lo, hi, x));
    forall a, b | a <= b ensures Counts(multiset(ListOf(table', a, b)), rem', a, b) {
      var list := ListOf(table, a, b);
      assert Counts(multiset(list), rem, a, b);
      if a == lo && b == hi {
        InsertKeepsCounts(list, rem, a, b, x);
      } else {
        assert ListOf(table', a, b) == list + [] == list;
        OtherCountsStay(multiset(list), rem, rem', a, b);
      }
    }
  }

  /** One side of face f goes into the table, complemented where it runs from the higher vertex to the lower. */
  method InsertSide(
    edgeTable: MeshEdgeTable, i0: int, i1: int, f: int, ghost rem: Remaining, ghost indexArray: seq<int>, ghost k: nat)
    requires 0 <= i0 < |edgeTable.table| && 0 <= i1 < |edgeTable.table| && 0 <= f < |rem|
    requires DistinctRows(edgeTable.table) && Ascending(edgeTable.table) && TableCounts(edgeTable.table, rem)
    requires |indexArray| % 3 == 0 && k < |indexArray| && SideAt(indexArray, k) == (i0, i1) && f == k / 3
    requires TableEntered(edgeTable.table, indexArray, k)
    modifies edgeTable
    ensures |edgeTable.table| == old(|edgeTable.table|)
    ensures DistinctRows(edgeTable.table) && Ascending(edgeTable.table)
    ensures TableCounts(edgeTable.table, WithSide(rem, f, (i0, i1)))
    ensures TableEntered(edgeTable.table, indexArray, k + 1)
  {
    hide TableCounts, TableEntered, DistinctRows, ListOf;
    ghost var table := edgeTable.table;
    if i0 < i1 {
      edgeTable.Insert(i0, i1, f);
      InsertKeepsTableCounts(table, edgeTable.table, rem, i0, i1, f);
    } else {
      assert Index(Not(f)) == f && SideOf(i1, i0, Not(f)) == (i0, i1);
      edgeTable.Insert(i1, i0, Not(f));
      InsertKeepsTableCounts(table, edgeTable.table, rem, i1, i0, Not(f));
    }
    EnterKeepsTable(table, edgeTable.table, indexArray, k);
  }

  // ---- faces and the vertices' lists of faces

  ghost predicate CornersAgree(faces: seq<Face>, vertices: seq<Vertex>) {
    && (forall v, f :: 0 <= v < |vertices| && f in vertices[v].faceIndex ==> HasCorner(faces, v, f))
    && (forall f :: 0 <= f < |faces| ==> CornersList(faces, vertices, f))
  }

  /** How many corners of t are vertex v. */
  function CornerCount(t: Triple, v: int): nat {
    (if t.a == v then 1 else 0) + (if t.b == v then 1 else 0) + (if t.c == v then 1 else 0)
  }

  /** A vertex lists a face once for each corner of the face that it is. */
  ghost predicate CornersCounted(faces: seq<Face>, vertices: seq<Vertex>) {
    forall v, f :: 0 <= v < |vertices| && 0 <= f < |faces| ==> CornerCounted(faces, vertices, v, f)
  }

  ghost predicate CornerCounted(faces: seq<Face>, vertices: seq<Vertex>, v: int, f: int)
    requires 0 <= v < |vertices| && 0 <= f < |faces|
  {
    multiset(vertices[v].faceIndex)[f] == CornerCount(faces[f].vertexIndex, v)
  }

  ghost predicate NoEdgesYet(vertices: seq<Vertex>) {
    forall v :: 0 <= v < |vertices| ==> vertices[v].edgeIndex == []
  }

  function WithFace(vertices: seq<Vertex>, v: int, f: int): (vertices': seq<Vertex>)
    requires 0 <= v < |vertices|
    ensures |vertices'| == |vertices|
  {
    vertices[v := vertices[v].(faceIndex := vertices[v].faceIndex + [f])]
  }

  /** A new face stores itself in the list of each of its corners. */
  lemma NewFaceAgrees(faces: seq<Face>, vertices: seq<Vertex>, t: Triple, vertices': seq<Vertex>)
    requires CornersAgree(faces, vertices) && NoEdgesYet(vertices)
    requires 0 <= t.a < |vertices| && 0 <= t.b < |vertices| && 0 <= t.c < |vertices|
    requires vertices' == WithFace(WithFace(WithFace(vertices, t.a, |faces|), t.b, |faces|), t.c, |faces|)
    ensures CornersAgree(faces + [Face(t, FREE)], vertices') && NoEdgesYet(vertices')
  {
    var faces' := faces + [Face(t, FREE)];
    forall v, f | 0 <= v < |vertices'| && f in vertices'[v].faceIndex ensures HasCorner(faces', v, f) {
      assert f in vertices[v].faceIndex ==> HasCorner(faces, v, f);
    }
    forall f | 0 <= f < |faces'| ensures CornersList(faces', vertices', f) {
      assert f < |faces| ==> CornersList(faces, vertices, f);
    }
  }

  lemma WithFaceCount(vertices: seq<Vertex>, w: int, f: int, v: int, g: int)
    requires 0 <= w < |vertices| && 0 <= v < |vertices|
    ensures multiset(WithFace(vertices, w, f)[v].faceIndex)[g]
      == multiset(vertices[v].faceIndex)[g] + if v == w && g == f then 1 else 0
  {
    assert multiset(vertices[w].faceIndex + [f]) == multiset(vertices[w].faceIndex) + multiset{f};
  }

  /** A new face with corners t enters the lists of its corners, and the counts of the others stay. */
  lemma NewFaceCounted(faces: seq<Face>, vertices: seq<Vertex>, face: Face, vertices': seq<Vertex>)
    requires CornersAgree(faces, vertices) && CornersCounted(faces, vertices)
    requires var t := face.vertexIndex;
      && 0 <= t.a < |vertices| && 0 <= t.b < |vertices| && 0 <= t.c < |vertices|
      && vertices' == WithFace(WithFace(WithFace(vertices, t.a, |faces|), t.b, |faces|), t.c, |faces|)
    ensures CornersCounted(faces + [face], vertices')
  {
    hide WithFace;
    var t, n := face.vertexIndex, |faces|;
    var one := WithFace(vertices, t.a, n);
    var two := WithFace(one, t.b, n);
    forall v, f | 0 <= v < |vertices'| && 0 <= f < n + 1 ensures CornerCounted(faces + [face], vertices', v, f) {
      WithFaceCount(vertices, t.a, n, v, f);
      WithFaceCount(one, t.b, n, v, f);
      WithFaceCount(two, t.c, n, v, f);
      if f < n {
        assert CornerCounted(faces, vertices, v, f);
      } else {
        assert n in vertices[v].faceIndex ==> HasCorner(faces, v, n);
      }
    }
  }

  /** What the first loop has built for the first f triangles. */
  ghost predicate Built(indexArray: seq<int>, f: nat, faces: seq<Face>, rem: Remaining)
    requires 3 * f <= |indexArray|
  {
    && |faces| == |rem| == f
    && forall g :: 0 <= g < f ==>
      faces[g] == Face(Corners(indexArray, g), FREE) && rem[g] == Sides(Corners(indexArray, g))
  }

  /** Each corner of the next face lists the face. */
  method StoreFace(vertices: seq<Vertex>, t: Triple, ghost faces: seq<Face>, f: int) returns (vertexArray: seq<Vertex>)
    requires CornersAgree(faces, vertices) && NoEdgesYet(vertices) && f == |faces| && CornersCounted(faces, vertices)
    requires forall i :: 0 <= i < 3 ==> 0 <= t.At(i) < |vertices|
    ensures |vertexArray| == |vertices|
    ensures CornersAgree(faces + [Face(t, FREE)], vertexArray) && NoEdgesYet(vertexArray)
    ensures CornersCounted(faces + [Face(t, FREE)], vertexArray)
  {
    hide CornersCounted;
    vertexArray := vertices;
    for j := 0 to 3
      invariant |vertexArray| == |vertices|
      invariant vertexArray ==
        (if j == 0 then vertices
         else if j == 1 then WithFace(vertices, t.At(0), f)
         else if j == 2 then WithFace(WithFace(vertices, t.At(0), f), t.At(1), f)
         else WithFace(WithFace(WithFace(vertices, t.At(0), f), t.At(1), f), t.At(2), f))
    {
      var v := t.At(j);
      vertexArray := vertexArray[v := vertexArray[v].(faceIndex := vertexArray[v].faceIndex + [f])];
    }
    NewFaceAgrees(faces, vertices, t, vertexArray);
    NewFaceCounted(faces, vertices, Face(t, FREE), vertexArray);
  }

  lemma EmptyTableCounts(table: seq<Row>)
    requires forall a, b :: ListOf(table, a, b) == []
    ensures TableCounts(table, [])
  {
    forall a, b | a <= b ensures Counts(multiset(ListOf(table, a, b)), [], a, b) {
      assert ListOf(table, a, b) == [];
    }
  }

  lemma BuiltSize(indexArray: seq<int>, f: nat, faces: seq<Face>, rem: Remaining)
    requires 3 * f <= |indexArray| && Built(indexArray, f, faces, rem)
    ensures |faces| == |rem| == f
  {
  }

  lemma BuiltGrows(indexArray: seq<int>, f: nat, faces: seq<Face>, rem: Remaining)
    requires 3 * f + 3 <= |indexArray| && Built(indexArray, f, faces, rem)
    ensures Built(indexArray, f + 1, faces + [Face(Corners(indexArray, f), FREE)], rem + [Sides(Corners(indexArray, f))])
  {
  }

  lemma NothingBuilt(table: seq<Row>, indexArray: seq<int>, vertices: seq<Vertex>)
    requires |indexArray| % 3 == 0
    requires forall a, b :: ListOf(table, a, b) == []
    requires forall v :: 0 <= v < |table| ==> table[v] == []
    requires forall v :: 0 <= v < |vertices| ==> vertices[v] == Vertex([], [])
    ensures TableEntered(table, indexArray, 0) && Built(indexArray, 0, [], []) && CornersAgree([], vertices)
    ensures CornersCounted([], vertices)
  {
  }

  /** Enters all triangles, one after the other. */
  method BuildFaces(n: nat, indexArray: seq<int>, edgeTable: MeshEdgeTable)
    returns (faceArray: seq<Face>, vertexArray: seq<Vertex>, ghost rem: Remaining)
    requires IsTriangleList(n, indexArray)
    requires |edgeTable.table| == n && forall a, b :: ListOf(edgeTable.table, a, b) == []
    requires forall v :: 0 <= v < n ==> edgeTable.table[v] == []
    requires DistinctRows(edgeTable.table) && Ascending(edgeTable.table)
    modifies edgeTable
    ensures DistinctRows(edgeTable.table) && Ascending(edgeTable.table) && TableCounts(edgeTable.table, rem)
    ensures TableEntered(edgeTable.table, indexArray, |indexArray|)
    ensures 3 * |faceArray| == |indexArray| && Built(indexArray, |faceArray|, faceArray, rem)
    ensures |vertexArray| == n && CornersAgree(faceArray, vertexArray) && NoEdgesYet(vertexArray)
    ensures CornersCounted(faceArray, vertexArray)
  {
    hide TableCounts, TableEntered, CornersAgree, CornersCounted, DistinctRows, Ascending, ListOf, Built;
    faceArray, rem := [], [];
    vertexArray := seq(n, _ => Vertex([], []));
    var q, f := 0, 0;
    EmptyTableCounts(edgeTable.table);
    NothingBuilt(edgeTable.table, indexArray, vertexArray);
    while q < |indexArray|
      invariant q == 3 * f <= |indexArray|
      invariant |edgeTable.table| == n && DistinctRows(edgeTable.table) && Ascending(edgeTable.table)
      invariant TableEntered(edgeTable.table, indexArray, q)
      invariant TableCounts(edgeTable.table, rem) && Built(indexArray, f, faceArray, rem)
      invariant |vertexArray| == n && CornersAgree(faceArray, vertexArray) && NoEdgesYet(vertexArray)
      invariant CornersCounted(faceArray, vertexArray)
    {
      var corners := Corners(indexArray, f);
      BuiltSize(indexArray, f, faceArray, rem);
      vertexArray := StoreFace(vertexArray, corners, faceArray, f);
      BuiltGrows(indexArray, f, faceArray, rem);
      rem := InsertTriangle(edgeTable, corners, f, rem, indexArray);
      faceArray := faceArray + [Face(corners, FREE)];
      f, q := f + 1, q + 3;
    }
    BuiltSize(indexArray, f, faceArray, rem);
  }

  lemma SideOfFace(indexArray: seq<int>, f: nat, j: nat)
    requires |indexArray| % 3 == 0 && 3 * f + 2 < |indexArray| && j < 3
    ensures var t := Corners(indexArray, f);
      SideAt(indexArray, 3 * f + j) == (t.At(j), t.At(Triple(1, 2, 0).At(j)))
    ensures (3 * f + j) / 3 == f && Triple(1, 2, 0).At(j) < 3
  {
  }

  lemma NextSide(rem: Remaining, t: Triple, j: nat)
    requires j < 3
    ensures Triple(1, 2, 0).At(j) < 3
    ensures WithSide(rem + [SidesUpTo(t, j)], |rem|, (t.At(j), t.At(Triple(1, 2, 0).At(j)))) == rem + [SidesUpTo(t, j + 1)]
  {
    var d := (t.At(j), t.At(Triple(1, 2, 0).At(j)));
    assert SidesUpTo(t, j + 1) == SidesUpTo(t, j) + multiset{d} by {
      assert j == 0 || j == 1 || j == 2;
    }
  }

  /** Adds each edge of face f to the edge table. */
  method InsertTriangle(edgeTable: MeshEdgeTable, t: Triple, f: int, ghost rem0: Remaining, ghost indexArray: seq<int>)
    returns (ghost rem: Remaining)
    requires forall i :: 0 <= i < 3 ==> 0 <= t.At(i) < |edgeTable.table|
    requires f == |rem0| && |indexArray| % 3 == 0 && 3 * f + 2 < |indexArray| && t == Corners(indexArray, f)
    requires TableEntered(edgeTable.table, indexArray, 3 * f)
    requires DistinctRows(edgeTable.table) && Ascending(edgeTable.table) && TableCounts(edgeTable.table, rem0)
    modifies edgeTable
    ensures |edgeTable.table| == old(|edgeTable.table|)
    ensures DistinctRows(edgeTable.table) && Ascending(edgeTable.table) && TableCounts(edgeTable.table, rem)
    ensures rem == rem0 + [Sides(t)]
    ensures TableEntered(edgeTable.table, indexArray, 3 * f + 3)
  {
    hide TableCounts, TableEntered, DistinctRows, Ascending, SideAt, WithSide, Corners, Sides;
    rem := rem0 + [multiset{}];
    NewFaceHasNoSides(edgeTable.table, rem0);
    var next := Triple(1, 2, 0);
    for j := 0 to 3
      invariant |edgeTable.table| == old(|edgeTable.table|)
      invariant DistinctRows(edgeTable.table) && Ascending(edgeTable.table) && TableCounts(edgeTable.table, rem)
      invariant rem == rem0 + [SidesUpTo(t, j)]
      invariant TableEntered(edgeTable.table, indexArray, 3 * f + j)
    {
      SideOfFace(indexArray, f, j);
      var i0, i1 := t.At(j), t.At(next.At(j));
      InsertSide(edgeTable, i0, i1, f, rem, indexArray, 3 * f + j);
      NextSide(rem0, t, j);
      rem := WithSide(rem, f, (i0, i1));
    }
  }

  ghost function SidesUpTo(t: Triple, j: nat): multiset<Side> {
    if j == 0 then multiset{} else if j == 1 then multiset{(t.a, t.b)}
    else if j == 2 then multiset{(t.a, t.b), (t.b, t.c)} else Sides(t)
  }

  lemma NewFaceHasNoSides(table: seq<Row>, rem: Remaining)
    requires TableCounts(table, rem)
    ensures TableCounts(table, rem + [multiset{}])
  {
    forall a, b | a <= b ensures Counts(multiset(ListOf(table, a, b)), rem + [multiset{}], a, b) {
      var list := multiset(ListOf(table, a, b));
      assert Counts(list, rem, a, b);
      forall f | 0 <= f < |rem| + 1 ensures CountOf(list, rem + [multiset{}], a, b, f) {
        assert f < |rem| ==> CountOf(list, rem, a, b, f);
        assert f !in list || f < |rem|;
        assert Not(f) !in list || f < |rem|;
      }
    }
  }

  // ---- one edge for each entry side or pair of sides

  /** No two open edges of a vertex pair could be joined. */
  ghost predicate Maximal(edges: seq<Edge>) {
    forall e, g :: 0 <= e < |edges| && 0 <= g < |edges| ==> NotMates(edges[e], edges[g])
  }

  predicate NotMates(e: Edge, g: Edge) {
    e.v0 == g.v0 && e.v1 == g.v1 ==> SameOpenSide(e, g)
  }

  /** Edge e was made from an entry before position (i0, p0). */
  ghost predicate MadeBefore(table: seq<Row>, edge: Edge, i0: int, p0: int) {
    exists i, q :: IsEntry(table, i, q) && Precedes(i, q, i0, p0) && edge.v0 == i && edge.v1 == table[i][q].i1
  }

  /** The state of the pairing loop at position (i0, p0) of the table. */
  ghost predicate PairedBefore(table: seq<Row>, edges: seq<Edge>, i0: int, p0: int) {
    && Maximal(edges)
    && (forall e :: 0 <= e < |edges| ==> HasFace(edges[e]) && SelfEdgeOpen(edges[e]) && MadeBefore(table, edges[e], i0, p0))
    && forall i, q :: IsEntry(table, i, q) && Precedes(i, q, i0, p0) ==> table[i][q].faceIndexArray == []
  }

  lemma ProcessedCountsStay(
    table: seq<Row>, table': seq<Row>, rem: Remaining, rem': Remaining, i: int, b: int)
    requires TableCounts(table, rem) && OnlyPairTaken(rem, rem', i, b) && i <= b
    requires forall c, d :: ListOf(table', c, d) == (if c == i && d == b then [] else ListOf(table, c, d))
    requires Counts(multiset([]), rem', i, b)
    ensures TableCounts(table', rem')
  {
    forall c, d | c <= d ensures Counts(multiset(ListOf(table', c, d)), rem', c, d) {
      assert Counts(multiset(ListOf(table, c, d)), rem, c, d);
      if c == i && d == b {
        assert ListOf(table', c, d) == [];
      } else {
        OtherCountsStay(multiset(ListOf(table, c, d)), rem, rem', c, d);
      }
    }
  }

  /** The new edges belong to a pair that had none before, so nothing earlier is their mate. */
  lemma EntryKeepsPaired(table: seq<Row>, table': seq<Row>, edges: seq<Edge>, edges': seq<Edge>, i: int, p: int, i': int, p': int)
    requires DistinctRows(table) && IsEntry(table, i, p) && SameShape(table, table')
    requires PairedBefore(table, edges, i, p) && edges <= edges' && PairEdges(edges', |edges|, i, table[i][p].i1)
    requires forall v, q :: IsEntry(table', v, q) ==>
      table'[v][q].faceIndexArray == if v == i && q == p then [] else table[v][q].faceIndexArray
    requires forall v, q :: IsEntry(table', v, q) ==>
      (Precedes(v, q, i', p') <==> Precedes(v, q, i, p) || (v == i && q == p))
    ensures PairedBefore(table', edges', i', p')
  {
    assert DistinctRow(table[i]);
    forall e | 0 <= e < |edges'| ensures HasFace(edges'[e]) && SelfEdgeOpen(edges'[e]) && MadeBefore(table', edges'[e], i', p') {
      if e < |edges| {
        assert HasFace(edges[e]) && MadeBefore(table, edges[e], i, p);
        var v, q :| IsEntry(table, v, q) && Precedes(v, q, i, p) && edges[e].v0 == v && edges[e].v1 == table[v][q].i1;
        assert IsEntry(table', v, q);
      } else {
        assert IsEntry(table', i, p);
      }
    }
    forall e, g | 0 <= e < |edges'| && 0 <= g < |edges'| ensures NotMates(edges'[e], edges'[g]) {
      if e < |edges| && g < |edges| {
        assert NotMates(edges[e], edges[g]);
      } else if e < |edges| {
        assert MadeBefore(table, edges[e], i, p);
      } else if g < |edges| {
        assert MadeBefore(table, edges[g], i, p);
      } else {
        assert SameOpenSide(edges'[e], edges'[g]);
      }
    }
  }

  /** The table from which the pairing loop starts. */
  ghost predicate StartsFrom(start: seq<Row>, indexArray: seq<int>)
    requires |indexArray| % 3 == 0
  {
    && DistinctRows(start) && TableEntered(start, indexArray, |indexArray|)
    && forall v, q :: IsEntry(start, v, q) ==> FitsPair(start[v][q].faceIndexArray, v, start[v][q].i1)
  }

  lemma CountsFitPair(table: seq<Row>, rem: Remaining, v: int, q: int)
    requires DistinctRows(table) && Ascending(table) && TableCounts(table, rem) && IsEntry(table, v, q)
    ensures Counts(multiset(table[v][q].faceIndexArray), rem, v, table[v][q].i1)
    ensures FitsPair(table[v][q].faceIndexArray, v, table[v][q].i1)
  {
    assert DistinctRow(table[v]);
    RowListAt(table[v], q);
    assert Counts(multiset(ListOf(table, v, table[v][q].i1)), rem, v, table[v][q].i1);
    ForwardMeansTwoVertices(table[v][q].faceIndexArray, rem, v, table[v][q].i1);
  }

  /** What comes from position (i0, p) on is as it was at the start. */
  ghost predicate UntouchedFrom(start: seq<Row>, table: seq<Row>, i0: int, p: int) {
    && SameShape(start, table)
    && forall v, q :: IsEntry(table, v, q) && !Precedes(v, q, i0, p) ==> table[v][q] == start[v][q]
  }

  /** The invariant of the pairing loop at position (i0, p). */
  ghost predicate Collapsing(
    start: seq<Row>, table: seq<Row>, faces: seq<Face>, edges: seq<Edge>, rem: Remaining, i0: int, p: int)
  {
    && DistinctRows(table) && Ascending(table) && TableCounts(table, rem)
    && Partial(faces, edges, rem) && |edges| + Total(rem) <= MAX_INT
    && PairedBefore(table, edges, i0, p)
    && UntouchedFrom(start, table, i0, p)
  }

  lemma EntryIsPairable(
    start: seq<Row>, table: seq<Row>, faces: seq<Face>, edges: seq<Edge>, rem: Remaining, i: int, p: int)
    requires Collapsing(start, table, faces, edges, rem, i, p) && IsEntry(table, i, p)
    ensures Pairable(faces, edges, rem, table[i][p].faceIndexArray, i, table[i][p].i1)
    ensures IsEntry(start, i, p) && start[i][p] == table[i][p]
  {
    hide Partial, Counts, Total;
    CountsFitPair(table, rem, i, p);
  }

  /** One entry of the table is done. */
  lemma EntryKeepsCollapsing(
    start: seq<Row>, table: seq<Row>, faces: seq<Face>, edges: seq<Edge>, rem: Remaining, i: int, p: int,
    table': seq<Row>, faces': seq<Face>, edges': seq<Edge>, rem': Remaining, i': int, p': int)
    requires Collapsing(start, table, faces, edges, rem, i, p) && IsEntry(table, i, p)
    requires Pairable(faces', edges', rem', [], i, table[i][p].i1) && OnlyPairTaken(rem, rem', i, table[i][p].i1)
    requires edges <= edges' && PairEdges(edges', |edges|, i, table[i][p].i1)
    requires DistinctRows(table') && Ascending(table') && SameShape(table, table')
    requires forall c, d ::
      ListOf(table', c, d) == (if c == i && d == table[i][p].i1 then [] else ListOf(table, c, d))
    requires forall v, q :: IsEntry(table', v, q) ==>
      table'[v][q].faceIndexArray == if v == i && q == p then [] else table[v][q].faceIndexArray
    requires forall v, q :: IsEntry(table', v, q) ==>
      (Precedes(v, q, i', p') <==> Precedes(v, q, i, p) || (v == i && q == p))
    ensures Collapsing(start, table', faces', edges', rem', i', p')
  {
    hide Partial, Counts, Total, OnlyPairTaken, PairEdges, PairedBefore, ListOf;
    ProcessedCountsStay(table, table', rem, rem', i, table[i][p].i1);
    EntryKeepsPaired(table, table', edges, edges', i, p, i', p');
    UntouchedStays(start, table, table', i, p, i', p');
  }

  lemma UntouchedStays(start: seq<Row>, table: seq<Row>, table': seq<Row>, i: int, p: int, i': int, p': int)
    requires UntouchedFrom(start, table, i, p) && SameShape(table, table')
    requires forall v, q :: IsEntry(table', v, q) ==>
      table'[v][q].faceIndexArray == if v == i && q == p then [] else table[v][q].faceIndexArray
    requires forall v, q :: IsEntry(table', v, q) ==>
      (Precedes(v, q, i', p') <==> Precedes(v, q, i, p) || (v == i && q == p))
    ensures UntouchedFrom(start, table', i', p')
  {
  }

  lemma EntryKeepsAllInOrder(
    start: seq<Row>, indexArray: seq<int>, similarity: (int, int) -> real, i: int, p: int, i': int, p': int,
    faces: seq<Face>, edges: seq<Edge>, faces': seq<Face>, edges': seq<Edge>)
    requires |indexArray| % 3 == 0 && StartsFrom(start, indexArray) && IsEntry(start, i, p)
    requires AllInOrder(start, indexArray, similarity, i, p, faces, edges)
    requires ListingsGrow(faces, edges, faces', edges', TakingOrder(start[i][p].faceIndexArray, similarity), i, start[i][p].i1)
    requires forall v, q :: IsEntry(start, v, q) ==>
      (Precedes(v, q, i', p') <==> Precedes(v, q, i, p) || (v == i && q == p))
    ensures AllInOrder(start, indexArray, similarity, i', p', faces', edges')
  {
    hide Listing, ListedInOrder;
    forall f | 0 <= f < |faces'|
      ensures ListedInOrder(start, indexArray, similarity, i', p', f, Listing(faces'[f].edgeIndex, edges'))
    {
      EntryKeepsOrder(start, indexArray, similarity, i, p, i', p', f, Listing(faces[f].edgeIndex, edges));
    }
  }

  lemma SameEntries(t: seq<Row>, u: seq<Row>)
    requires SameShape(t, u)
    ensures forall v, q :: IsEntry(t, v, q) <==> IsEntry(u, v, q)
  {
  }

  lemma CollapsingEnds(
    start: seq<Row>, table: seq<Row>, faces: seq<Face>, edges: seq<Edge>, rem: Remaining, p: int)
    requires Collapsing(start, table, faces, edges, rem, |table|, p)
    ensures PairedBefore(table, edges, |table|, 0)
  {
    hide Partial, Counts, Total, TableCounts;
    assert PairedBefore(table, edges, |table|, p);
  }

  lemma CollapsingStarts(
    table: seq<Row>, indexArray: seq<int>, similarity: (int, int) -> real, faces: seq<Face>, rem: Remaining, i0: int, p: int)
    requires |indexArray| % 3 == 0
    requires DistinctRows(table) && Ascending(table) && TableCounts(table, rem)
    requires TableEntered(table, indexArray, |indexArray|)
    requires Partial(faces, [], rem) && Total(rem) <= MAX_INT
    requires forall f :: 0 <= f < |faces| ==> faces[f].edgeIndex == FREE
    requires forall i, q :: IsEntry(table, i, q) ==> !Precedes(i, q, i0, p)
    ensures Collapsing(table, table, faces, [], rem, i0, p) && StartsFrom(table, indexArray)
    ensures AllInOrder(table, indexArray, similarity, i0, p, faces, [])
  {
    hide Partial, Counts, Total, TableEntered;
    forall v, q | IsEntry(table, v, q) ensures FitsPair(table[v][q].faceIndexArray, v, table[v][q].i1) {
      CountsFitPair(table, rem, v, q);
    }
    assert StartsFrom(table, indexArray) by {
      hide TableCounts;
    }
    assert PairedBefore(table, [], i0, p);
  }

  /** Turns the table into edges, entry by entry, with two opposite sides to an edge where there are two. */
  method CollapseEdges(
    edgeTable: MeshEdgeTable, faces0: seq<Face>, similarity: (int, int) -> real, ghost rem0: Remaining,
    ghost indexArray: seq<int>)
    returns (faceArray: seq<Face>, tempEdgeArray: seq<Edge>, ghost rem: Remaining)
    requires DistinctRows(edgeTable.table) && Ascending(edgeTable.table) && TableCounts(edgeTable.table, rem0)
    requires |indexArray| % 3 == 0 && TableEntered(edgeTable.table, indexArray, |indexArray|)
    requires Partial(faces0, [], rem0) && Total(rem0) <= MAX_INT
    requires forall f :: 0 <= f < |faces0| ==> faces0[f].edgeIndex == FREE
    modifies edgeTable
    ensures DistinctRows(edgeTable.table) && Ascending(edgeTable.table) && TableCounts(edgeTable.table, rem)
    ensures Partial(faceArray, tempEdgeArray, rem) && SameTriangles(faces0, faceArray)
    ensures PairedBefore(edgeTable.table, tempEdgeArray, |edgeTable.table|, 0)
    ensures InTakingOrder(indexArray, similarity, faceArray, tempEdgeArray)
  {
    hide Collapsing, AllInOrder, StartsFrom, Pairable, Partial, TableCounts, DistinctRows, Ascending, PairedBefore, ListingsGrow,
         OnlyPairTaken, PairEdges, TakingOrder, Total, SameShape, SameTriangles, TableEntered, InTakingOrder;
    faceArray, tempEdgeArray, rem := faces0, [], rem0;
    ghost var start := edgeTable.table;
    var cur := new Iterator(edgeTable);
    CollapsingStarts(start, indexArray, similarity, faces0, rem0, cur.i0, cur.p);
    SameTrianglesTrans(faces0, faces0, faces0);
    while !cur.end
      invariant cur.source == edgeTable && cur.Valid() && fresh(cur) && |edgeTable.table| == |start|
      invariant Collapsing(start, edgeTable.table, faceArray, tempEdgeArray, rem, cur.i0, cur.p)
      invariant AllInOrder(start, indexArray, similarity, cur.i0, cur.p, faceArray, tempEdgeArray)
      invariant SameTriangles(faces0, faceArray)
      decreases |edgeTable.table| - cur.i0, if cur.end then 0 else |edgeTable.table[cur.i0]| - cur.p
    {
      ghost var table, faces, edges, before := edgeTable.table, faceArray, tempEdgeArray, rem;
      var i0, p := cur.i0, cur.p;
      var entry := edgeTable.table[i0][p];
      EntryIsPairable(start, table, faceArray, tempEdgeArray, rem, i0, p);
      faceArray, tempEdgeArray, rem :=
        ProcessEntry(faceArray, tempEdgeArray, entry.faceIndexArray, i0, entry.i1, similarity, rem);
      CollapsingParts(start, table, faces, edges, before, i0, p);
      edgeTable.StoreList(i0, p, []);
      SameEntries(table, edgeTable.table);
      cur.Advance();
      SameTrianglesTrans(faces0, faces, faceArray);
      EntryKeepsCollapsing(start, table, faces, edges, before, i0, p,
                           edgeTable.table, faceArray, tempEdgeArray, rem, cur.i0, cur.p);
      EntryKeepsAllInOrder(start, indexArray, similarity, i0, p, cur.i0, cur.p, faces, edges, faceArray, tempEdgeArray);
    }
    CollapsingEnds(start, edgeTable.table, faceArray, tempEdgeArray, rem, cur.p);
    CollapsingParts(start, edgeTable.table, faceArray, tempEdgeArray, rem, cur.i0, cur.p);
    AllAreInOrder(start, indexArray, similarity, cur.i0, cur.p, faceArray, tempEdgeArray);
  }

  lemma SameTrianglesTrans(f0: seq<Face>, f1: seq<Face>, f2: seq<Face>)
    ensures SameTriangles(f0, f0)
    ensures SameTriangles(f0, f1) && SameTriangles(f1, f2) ==> SameTriangles(f0, f2)
  {
  }

  lemma CollapsingParts(
    start: seq<Row>, table: seq<Row>, faces: seq<Face>, edges: seq<Edge>, rem: Remaining, i0: int, p: int)
    requires Collapsing(start, table, faces, edges, rem, i0, p)
    ensures DistinctRows(table) && Ascending(table) && TableCounts(table, rem) && Partial(faces, edges, rem)
    ensures SameShape(start, table) && forall v, q :: IsEntry(start, v, q) <==> IsEntry(table, v, q)
  {
    SameEntries(start, table);
  }

  /** Every face lists its sides in the order in which they are taken. */
  ghost predicate InTakingOrder(
    indexArray: seq<int>, similarity: (int, int) -> real, faces: seq<Face>, edges: seq<Edge>)
    requires |indexArray| % 3 == 0
  {
    forall f, j, k :: 0 <= f < |faces| && 0 <= j < k < |Listing(faces[f].edgeIndex, edges)| ==>
      var l := Listing(faces[f].edgeIndex, edges);
      TakenFirst(indexArray, similarity, f, l[j], l[k])
  }

  lemma AllAreInOrder(
    table: seq<Row>, indexArray: seq<int>, similarity: (int, int) -> real, i0: int, p0: int,
    faces: seq<Face>, edges: seq<Edge>)
    requires |indexArray| % 3 == 0 && AllInOrder(table, indexArray, similarity, i0, p0, faces, edges)
    ensures InTakingOrder(indexArray, similarity, faces, edges)
  {
    forall f, j, k | 0 <= f < |faces| && 0 <= j < k < |Listing(faces[f].edgeIndex, edges)|
      ensures var l := Listing(faces[f].edgeIndex, edges); TakenFirst(indexArray, similarity, f, l[j], l[k])
    {
      assert ListedInOrder(table, indexArray, similarity, i0, p0, f, Listing(faces[f].edgeIndex, edges));
    }
  }

  /** After the last entry every face has its three edges. */
  lemma NothingRemains(table: seq<Row>, edges: seq<Edge>, rem: Remaining)
    requires DistinctRows(table) && Ascending(table) && TableCounts(table, rem)
    requires PairedBefore(table, edges, |table|, 0)
    ensures forall f :: 0 <= f < |rem| ==> rem[f] == multiset{}
  {
    forall a, b ensures ListOf(table, a, b) == [] {
      if ListOf(table, a, b) != [] {
        var p := RowListStored(table[a], b);
        assert IsEntry(table, a, p) && DistinctRow(table[a]);
        RowListAt(table[a], p);
        assert false;
      }
    }
    forall f | 0 <= f < |rem| ensures rem[f] == multiset{} {
      forall a, b ensures rem[f][(a, b)] == 0 {
        var lo, hi := if a < b then a else b, if a < b then b else a;
        assert Counts(multiset(ListOf(table, lo, hi)), rem, lo, hi);
        assert CountOf(multiset([]), rem, lo, hi, f);
      }
      assert forall d :: d !in rem[f] by {
        forall d ensures d !in rem[f] {
          assert rem[f][(d.0, d.1)] == 0;
        }
      }
    }
  }

  lemma CompleteFace(face: Face, edges: seq<Edge>, f: int)
    requires PartialFace(face, edges, multiset{}, f)
    ensures face.edgeIndex.c != NONE && face.edgeIndex.AllDifferent()
    ensures SidesSoFar(face.edgeIndex, edges, f) == Sides(face.vertexIndex)
  {
    assert SidesSoFar(face.edgeIndex, edges, f) == Sides(face.vertexIndex);
    assert |Sides(face.vertexIndex)| == 3;
  }

  lemma CompleteFacesAreLinked(faces: seq<Face>, edges: seq<Edge>, rem: Remaining)
    requires Partial(faces, edges, rem) && forall f :: 0 <= f < |rem| ==> rem[f] == multiset{}
    ensures Linked(faces, edges) && TracesTriangles(faces, edges)
  {
    forall f | 0 <= f < |faces|
      ensures OwnsItsEdges(faces, edges, f) && ListedSides(edges, faces[f].edgeIndex) == Sides(faces[f].vertexIndex)
    {
      assert PartialFace(faces[f], edges, rem[f], f);
      CompleteFace(faces[f], edges, f);
    }
  }

  lemma EdgesAscend(table: seq<Row>, edges: seq<Edge>)
    requires Ascending(table) && PairedBefore(table, edges, |table|, 0)
    ensures forall e :: 0 <= e < |edges| ==> 0 <= edges[e].v0 < |table| && edges[e].v0 <= edges[e].v1
  {
    forall e | 0 <= e < |edges| ensures 0 <= edges[e].v0 < |table| && edges[e].v0 <= edges[e].v1 {
      assert MadeBefore(table, edges[e], |table|, 0);
    }
  }

  // ---- boundary edges last

  /** newIndex is a permutation that carries the edges of one array to the other. */
  ghost predicate Carries(newIndex: seq<int>, oldIndex: seq<int>, before: seq<Edge>, after: seq<Edge>) {
    && |newIndex| == |oldIndex| == |before| == |after|
    && (forall e :: 0 <= e < |before| ==>
          0 <= newIndex[e] < |after| && oldIndex[newIndex[e]] == e && after[newIndex[e]] == before[e])
    && forall e :: 0 <= e < |after| ==> 0 <= oldIndex[e] < |before| && newIndex[oldIndex[e]] == e
  }

  lemma PermutationRelabels(newIndex: seq<int>, oldIndex: seq<int>, before: seq<Edge>, after: seq<Edge>)
    requires Carries(newIndex, oldIndex, before, after)
    ensures Relabels(newIndex, before, after)
  {
    forall r | IsRef(before, r) ensures RenamesRef(newIndex, before, after, r) {
    }
    forall r, s | IsRef(before, r) && IsRef(before, s) ensures KeepsApart(newIndex, before, r, s) {
      if Renamed(newIndex, r) == Renamed(newIndex, s) {
        assert oldIndex[newIndex[Index(r)]] == Index(r) && oldIndex[newIndex[Index(s)]] == Index(s);
      }
    }
    forall r | IsRef(after, r) ensures exists s :: ComesFrom(newIndex, before, after, r, s) {
      var e := oldIndex[Index(r)];
      assert ComesFrom(newIndex, before, after, r, if r >= 0 then e else Not(e));
    }
  }

  /** Interior edges fill the array from the front, boundary edges from the back. */
  method MoveBoundaryLast(tempEdgeArray: seq<Edge>)
    returns (edgeArray: seq<Edge>, newIndex: seq<int>, ghost oldIndex: seq<int>)
    ensures Carries(newIndex, oldIndex, tempEdgeArray, edgeArray)
    ensures BoundaryLast(edgeArray)
  {
    var n := |tempEdgeArray|;
    var i, j := 0, n - 1;
    newIndex, oldIndex := seq(n, _ => 0), seq(n, _ => 0);
    edgeArray := seq(n, _ => Edge(0, 0, -1, -1));
    for e := 0 to n
      invariant |newIndex| == |oldIndex| == |edgeArray| == n
      invariant 0 <= i <= j + 1 <= n && i + (n - 1 - j) == e
      invariant forall k :: 0 <= k < e ==>
        && (0 <= newIndex[k] < i || j < newIndex[k] < n)
        && oldIndex[newIndex[k]] == k && edgeArray[newIndex[k]] == tempEdgeArray[k]
      invariant forall k :: (0 <= k < i || j < k < n) ==> 0 <= oldIndex[k] < e && newIndex[oldIndex[k]] == k
      invariant forall k :: 0 <= k < i ==> !edgeArray[k].Boundary()
      invariant forall k :: j < k < n ==> edgeArray[k].Boundary()
    {
      if tempEdgeArray[e].Boundary() {
        newIndex := newIndex[e := j];
        j := j - 1;
      } else {
        newIndex := newIndex[e := i];
        i := i + 1;
      }
      edgeArray := edgeArray[newIndex[e] := tempEdgeArray[e]];
      oldIndex := oldIndex[newIndex[e] := e];
    }
    assert i == j + 1;
    assert BoundaryFrom(edgeArray, i);
  }

  /** Remaps the edge references of every face. */
  method RenameFaces(faces0: seq<Face>, newIndex: seq<int>, ghost before: seq<Edge>) returns (faceArray: seq<Face>)
    requires Linked(faces0, before) && |newIndex| == |before|
    ensures FacesRenamed(newIndex, before, faces0, faceArray)
  {
    faceArray := faces0;
    for f := 0 to |faces0|
      invariant |faceArray| == |faces0|
      invariant forall g :: f <= g < |faces0| ==> faceArray[g] == faces0[g]
      invariant forall g :: 0 <= g < f ==>
        OwnsItsEdges(faces0, before, g) && faceArray[g].vertexIndex == faces0[g].vertexIndex
        && faceArray[g].edgeIndex == RenamedTriple(newIndex, faces0[g].edgeIndex)
    {
      assert OwnsItsEdges(faces0, before, f);
      ghost var t := faces0[f].edgeIndex;
      var face := faceArray[f];
      for q := 0 to 3
        invariant face.vertexIndex == faces0[f].vertexIndex
        invariant face.edgeIndex.a == if q > 0 then Renamed(newIndex, t.a) else t.a
        invariant face.edgeIndex.b == if q > 1 then Renamed(newIndex, t.b) else t.b
        invariant face.edgeIndex.c == if q > 2 then Renamed(newIndex, t.c) else t.c
      {
        var e := face.edgeIndex.At(q);
        var e' := if e < 0 then Not(newIndex[Not(e)]) else newIndex[e];
        face := face.(edgeIndex := face.edgeIndex.With(q, e'));
      }
      faceArray := faceArray[f := face];
    }
  }

  // ---- ordering the edges of a face

  /** e0 stays first; the other two are swapped unless the second begins where e0 ends. */
  function Ordered(edges: seq<Edge>, t: Triple): Triple
    requires IsRef(edges, t.a) && IsRef(edges, t.b) && IsRef(edges, t.c)
  {
    if End(edges, t.a) != Begin(edges, t.b) then Triple(t.a, t.c, t.b) else t
  }

  /** The one listing that ordering leaves out of loop: an edge, its reverse, and the
      self-edge of the vertex where the first one ends. */
  predicate StuckListing(edges: seq<Edge>, t: Triple)
    requires IsRef(edges, t.a) && IsRef(edges, t.b) && IsRef(edges, t.c)
  {
    StuckSides(Direction(edges, t.a), Direction(edges, t.b), Direction(edges, t.c))
  }

  /** Ordering makes the listed edges of a triangle follow each other, except for exactly one
      listing, which it does not touch. */
  lemma OrderingMakesLoop(edges: seq<Edge>, t: Triple, corners: Triple)
    requires IsRef(edges, t.a) && IsRef(edges, t.b) && IsRef(edges, t.c)
    requires ListedSides(edges, t) == Sides(corners)
    ensures IsLoop(edges, Ordered(edges, t)) <==> !StuckListing(edges, t)
    ensures StuckListing(edges, Ordered(edges, t)) <==> StuckListing(edges, t)
  {
    var a, b, c := corners.a, corners.b, corners.c;
    SixListings(Direction(edges, t.a), Direction(edges, t.b), Direction(edges, t.c), (a, b), (b, c), (c, a));
  }

  /** The faces whose edges do not follow each other are told from the triangle list alone. */
  ghost predicate StuckAsTaken(
    indexArray: seq<int>, similarity: (int, int) -> real, faces: seq<Face>, edges: seq<Edge>)
    requires FacesAre(faces, indexArray) && Linked(faces, edges)
  {
    forall f :: 0 <= f < |faces| ==>
      OwnsItsEdges(faces, edges, f)
      && (StuckListing(edges, faces[f].edgeIndex) <==> LeftOutOfLoop(indexArray, similarity, f))
  }

  ghost predicate FacesAre(faces: seq<Face>, indexArray: seq<int>) {
    && 3 * |faces| == |indexArray|
    && forall f :: 0 <= f < |faces| ==> faces[f].vertexIndex == Corners(indexArray, f)
  }

  /** The listing of a complete face, side by side. */
  lemma CompleteListing(faces: seq<Face>, edges: seq<Edge>, f: nat)
    requires f < |faces| && OwnsItsEdges(faces, edges, f) && |edges| <= MAX_INT
    ensures var t := faces[f].edgeIndex;
      Listing(t, edges) == [Direction(edges, t.a), Direction(edges, t.b), Direction(edges, t.c)]
  {
  }

  lemma OrderDecidesStuck(
    indexArray: seq<int>, similarity: (int, int) -> real, faces: seq<Face>, edges: seq<Edge>)
    requires |indexArray| % 3 == 0 && FacesAre(faces, indexArray) && |edges| <= MAX_INT
    requires Linked(faces, edges) && TracesTriangles(faces, edges)
    requires InTakingOrder(indexArray, similarity, faces, edges)
    requires forall f :: 0 <= f < |faces| ==> ListsHold(indexArray, f)
    ensures StuckAsTaken(indexArray, similarity, faces, edges)
  {
    forall f | 0 <= f < |faces|
      ensures OwnsItsEdges(faces, edges, f)
      ensures StuckListing(edges, faces[f].edgeIndex) <==> LeftOutOfLoop(indexArray, similarity, f)
    {
      hide TakenFirst, LeftOutOfLoop, Listing, ListsHold, Direction, StuckSides;
      assert OwnsItsEdges(faces, edges, f);
      var t := faces[f].edgeIndex;
      var x, y, z := Direction(edges, t.a), Direction(edges, t.b), Direction(edges, t.c);
      CompleteListing(faces, edges, f);
      var l := Listing(t, edges);
      assert l[0] == x && l[1] == y && l[2] == z;
      assert TakenFirst(indexArray, similarity, f, l[0], l[1]);
      assert TakenFirst(indexArray, similarity, f, l[0], l[2]);
      assert TakenFirst(indexArray, similarity, f, l[1], l[2]);
      StuckExactlyThen(indexArray, similarity, f, x, y, z);
    }
  }

  /** The built lists hold every side of a face as often as the triangle has it. */
  lemma BuiltListsHold(indexArray: seq<int>, faces: seq<Face>, table: seq<Row>, rem: Remaining)
    requires 3 * |faces| == |indexArray| && Built(indexArray, |faces|, faces, rem)
    requires TableCounts(table, rem) && TableEntered(table, indexArray, |indexArray|)
    ensures forall f :: 0 <= f < |faces| ==> ListsHold(indexArray, f)
  {
    forall f, d: Side | 0 <= f < |faces| && d in Sides(Corners(indexArray, f)) ensures ListHolds(indexArray, f, d) {
      hide ListHolds, Sides, TableCounts, TableEntered;
      BuiltListHolds(indexArray, table, rem, f, d);
    }
  }

  lemma BuiltListHolds(indexArray: seq<int>, table: seq<Row>, rem: Remaining, f: nat, d: Side)
    requires |indexArray| % 3 == 0 && 3 * f + 2 < |indexArray|
    requires TableCounts(table, rem) && TableEntered(table, indexArray, |indexArray|)
    requires f < |rem| && rem[f] == Sides(Corners(indexArray, f))
    ensures ListHolds(indexArray, f, d)
  {
    hide Sides, Corners, RowsInOrder;
    var (a, b) := PairOf(d);
    assert ListOf(table, a, b) == PairList(indexArray, |indexArray|, a, b);
    assert Counts(multiset(ListOf(table, a, b)), rem, a, b);
    assert CountOf(multiset(ListOf(table, a, b)), rem, a, b, f);
  }

  /** Renaming edges keeps every listing, stuck or not. */
  lemma RelabellingKeepsStuck(
    indexArray: seq<int>, similarity: (int, int) -> real,
    newIndex: seq<int>, before: seq<Edge>, after: seq<Edge>, faces: seq<Face>, faces': seq<Face>)
    requires Relabels(newIndex, before, after) && Linked(faces, before)
    requires FacesRenamed(newIndex, before, faces, faces') && FacesAre(faces, indexArray)
    requires StuckAsTaken(indexArray, similarity, faces, before)
    ensures FacesAre(faces', indexArray) && Linked(faces', after)
    ensures StuckAsTaken(indexArray, similarity, faces', after)
  {
    hide LeftOutOfLoop, StuckSides, Direction, Relabels;
    RelabellingKeepsLinked(newIndex, before, after, faces, faces');
    forall f | 0 <= f < |faces'|
      ensures OwnsItsEdges(faces', after, f)
      ensures StuckListing(after, faces'[f].edgeIndex) <==> LeftOutOfLoop(indexArray, similarity, f)
    {
      assert OwnsItsEdges(faces, before, f);
    }
  }

  /** In the end exactly the faces left out are out of loop, and they list their edges in the stuck way. */
  ghost predicate LoopsAsTaken(
    indexArray: seq<int>, similarity: (int, int) -> real, faces: seq<Face>, edges: seq<Edge>)
    requires FacesAre(faces, indexArray) && Linked(faces, edges)
  {
    forall f :: 0 <= f < |faces| ==>
      && OwnsItsEdges(faces, edges, f)
      && (IsLoop(edges, faces[f].edgeIndex) <==> !LeftOutOfLoop(indexArray, similarity, f))
      && (IsLoop(edges, faces[f].edgeIndex) <==> !StuckListing(edges, faces[f].edgeIndex))
  }

  lemma OrderingMakesLoops(
    indexArray: seq<int>, similarity: (int, int) -> real, edges: seq<Edge>, faces: seq<Face>, faces': seq<Face>)
    requires Linked(faces, edges) && TracesTriangles(faces, edges) && FacesOrdered(edges, faces, faces')
    requires FacesAre(faces, indexArray) && StuckAsTaken(indexArray, similarity, faces, edges)
    ensures Linked(faces', edges) && FacesAre(faces', indexArray)
    ensures LoopsAsTaken(indexArray, similarity, faces', edges)
  {
    hide LeftOutOfLoop, StuckListing, ListedSides, Sides, IsLoop, Ordered, Corners, SideIsListed, SideFace;
    OrderingKeepsLinked(edges, faces, faces');
    OrderingKeepsCorners(indexArray, edges, faces, faces');
    forall f | 0 <= f < |faces'|
      ensures OwnsItsEdges(faces', edges, f)
      ensures IsLoop(edges, faces'[f].edgeIndex) <==> !LeftOutOfLoop(indexArray, similarity, f)
      ensures IsLoop(edges, faces'[f].edgeIndex) <==> !StuckListing(edges, faces'[f].edgeIndex)
    {
      OrderedFace(indexArray, similarity, edges, faces, faces', f);
    }
  }

  lemma OrderingKeepsCorners(indexArray: seq<int>, edges: seq<Edge>, faces: seq<Face>, faces': seq<Face>)
    requires Linked(faces, edges) && FacesOrdered(edges, faces, faces') && FacesAre(faces, indexArray)
    ensures FacesAre(faces', indexArray)
  {
    hide Corners, OwnsItsEdges, Linked, Ordered;
  }

  lemma OrderedFace(
    indexArray: seq<int>, similarity: (int, int) -> real, edges: seq<Edge>, faces: seq<Face>, faces': seq<Face>, f: nat)
    requires Linked(faces, edges) && TracesTriangles(faces, edges) && FacesOrdered(edges, faces, faces')
    requires Linked(faces', edges) && FacesAre(faces, indexArray) && f < |faces'|
    requires StuckAsTaken(indexArray, similarity, faces, edges)
    ensures OwnsItsEdges(faces', edges, f)
    ensures IsLoop(edges, faces'[f].edgeIndex) <==> !LeftOutOfLoop(indexArray, similarity, f)
    ensures IsLoop(edges, faces'[f].edgeIndex) <==> !StuckListing(edges, faces'[f].edgeIndex)
  {
    hide LeftOutOfLoop, StuckListing, ListedSides, Sides, IsLoop, Ordered, Corners, SideIsListed;
    var t := faces[f].edgeIndex;
    assert OwnsItsEdges(faces, edges, f) && ListedSides(edges, t) == Sides(faces[f].vertexIndex);
    assert faces'[f].edgeIndex == Ordered(edges, t);
    assert StuckListing(edges, t) <==> LeftOutOfLoop(indexArray, similarity, f);
    OrderingMakesLoop(edges, t, faces[f].vertexIndex);
  }

  ghost predicate FacesOrdered(edges: seq<Edge>, faces: seq<Face>, faces': seq<Face>)
    requires Linked(faces, edges)
  {
    && |faces'| == |faces|
    && forall f :: 0 <= f < |faces| ==>
      && OwnsItsEdges(faces, edges, f)
      && faces'[f] == faces[f].(edgeIndex := Ordered(edges, faces[f].edgeIndex))
  }

  lemma OrderingKeepsFace(edges: seq<Edge>, faces: seq<Face>, faces': seq<Face>, f: int)
    requires 0 <= f < |faces| == |faces'| && OwnsItsEdges(faces, edges, f)
    requires faces'[f] == faces[f].(edgeIndex := Ordered(edges, faces[f].edgeIndex))
    ensures OwnsItsEdges(faces', edges, f)
    ensures ListedSides(edges, faces'[f].edgeIndex) == ListedSides(edges, faces[f].edgeIndex)
    ensures forall r :: faces[f].edgeIndex.Contains(r) <==> faces'[f].edgeIndex.Contains(r)
  {
  }

  lemma OrderingKeepsLinked(edges: seq<Edge>, faces: seq<Face>, faces': seq<Face>)
    requires Linked(faces, edges) && TracesTriangles(faces, edges) && FacesOrdered(edges, faces, faces')
    ensures Linked(faces', edges) && TracesTriangles(faces', edges)
  {
    forall f | 0 <= f < |faces|
      ensures OwnsItsEdges(faces', edges, f)
      ensures ListedSides(edges, faces'[f].edgeIndex) == Sides(faces'[f].vertexIndex)
      ensures forall r :: faces[f].edgeIndex.Contains(r) <==> faces'[f].edgeIndex.Contains(r)
    {
      OrderingKeepsFace(edges, faces, faces', f);
    }
    forall r | IsRef(edges, r) ensures SideIsListed(faces', edges, r) {
      assert SideIsListed(faces, edges, r);
    }
  }

  method OrderFaces(faces0: seq<Face>, edgeArray: seq<Edge>) returns (faceArray: seq<Face>)
    requires Linked(faces0, edgeArray)
    ensures FacesOrdered(edgeArray, faces0, faceArray)
  {
    faceArray := faces0;
    for f := 0 to |faces0|
      invariant |faceArray| == |faces0|
      invariant forall g :: f <= g < |faces0| ==> faceArray[g] == faces0[g]
      invariant forall g :: 0 <= g < f ==>
        && OwnsItsEdges(faces0, edgeArray, g)
        && faceArray[g] == faces0[g].(edgeIndex := Ordered(edgeArray, faces0[g].edgeIndex))
    {
      assert OwnsItsEdges(faces0, edgeArray, f);
      var face := faceArray[f];
      var e0, e1, e2 := face.edgeIndex.a, face.edgeIndex.b, face.edgeIndex.c;
      var e0End := if e0 < 0 then edgeArray[Not(e0)].v0 else edgeArray[e0].v1;
      var e1Begin := if e1 < 0 then edgeArray[Not(e1)].v1 else edgeArray[e1].v0;
      if e0End != e1Begin {
        face := face.(edgeIndex := Triple(e0, e2, e1));
      }
      faceArray := faceArray[f := face];
    }
  }

  // ---- the vertices' lists of edges

  function WithRef(vertices: seq<Vertex>, v: int, r: int): (vertices': seq<Vertex>)
    requires 0 <= v < |vertices|
    ensures |vertices'| == |vertices|
  {
    vertices[v := vertices[v].(edgeIndex := vertices[v].edgeIndex + [r])]
  }

  ghost predicate SameFaceLists(vertices: seq<Vertex>, vertices': seq<Vertex>) {
    |vertices'| == |vertices| && forall v :: 0 <= v < |vertices| ==> vertices'[v].faceIndex == vertices[v].faceIndex
  }

  ghost predicate NoRepeats(s: seq<int>) {
    forall i, j :: 0 <= i < j < |s| ==> s[i] != s[j]
  }

  lemma AppendFresh(s: seq<int>, x: int)
    ensures NoRepeats(s) && x !in s ==> NoRepeats(s + [x])
  {
  }

  /** Lists every edge at both of its ends: forwards where it starts, complemented where it stops. */
  method StoreEdges(vertices: seq<Vertex>, edgeArray: seq<Edge>) returns (vertexArray: seq<Vertex>)
    requires NoEdgesYet(vertices)
    requires forall e :: 0 <= e < |edgeArray| ==> 0 <= edgeArray[e].v0 < |vertices| && 0 <= edgeArray[e].v1 < |vertices|
    ensures SameFaceLists(vertices, vertexArray)
    ensures forall v, r :: 0 <= v < |vertexArray| && r in vertexArray[v].edgeIndex ==> LeavesVertex(edgeArray, v, r)
    ensures forall r :: IsRef(edgeArray, r) ==> BeginLists(edgeArray, vertexArray, r)
    ensures forall v :: 0 <= v < |vertexArray| ==> NoRepeats(vertexArray[v].edgeIndex)
  {
    vertexArray := vertices;
    for e := 0 to |edgeArray|
      invariant SameFaceLists(vertices, vertexArray)
      invariant forall v, r :: 0 <= v < |vertexArray| && r in vertexArray[v].edgeIndex ==>
        LeavesVertex(edgeArray, v, r) && Index(r) < e
      invariant forall v :: 0 <= v < |vertexArray| ==> NoRepeats(vertexArray[v].edgeIndex)
      invariant forall r :: IsRef(edgeArray, r) && Index(r) < e ==> BeginLists(edgeArray, vertexArray, r)
    {
      var edge := edgeArray[e];
      ghost var before := vertexArray;
      vertexArray := WithRef(vertexArray, edge.v0, e);
      vertexArray := WithRef(vertexArray, edge.v1, Not(e));
      forall v, r | 0 <= v < |vertexArray| && r in vertexArray[v].edgeIndex
        ensures LeavesVertex(edgeArray, v, r) && Index(r) <= e
      {
        assert r in before[v].edgeIndex ==> LeavesVertex(edgeArray, v, r) && Index(r) < e;
      }
      forall v | 0 <= v < |vertexArray| ensures NoRepeats(vertexArray[v].edgeIndex) {
        var list := before[v].edgeIndex;
        assert NoRepeats(list) && forall r :: r in list ==> Index(r) < e;
        AppendFresh(list, e);
        AppendFresh(list, Not(e));
        AppendFresh(list + [e], Not(e));
      }
      forall r | IsRef(edgeArray, r) && Index(r) <= e ensures BeginLists(edgeArray, vertexArray, r) {
        assert Index(r) < e ==> BeginLists(edgeArray, before, r);
      }
    }
  }

  // ---- the whole computation

  lemma {:induction false} ThreeSidesEach(rem: Remaining)
    requires forall f :: 0 <= f < |rem| ==> |rem[f]| == 3
    ensures Total(rem) == 3 * |rem|
  {
    if rem != [] {
      ThreeSidesEach(rem[1..]);
    }
  }

  /** Before the pairing loop all three sides of every face remain. */
  lemma BuiltIsPartial(indexArray: seq<int>, faces: seq<Face>, rem: Remaining)
    requires 3 * |faces| == |indexArray| <= MAX_INT && Built(indexArray, |faces|, faces, rem)
    ensures Partial(faces, [], rem) && Total(rem) <= MAX_INT
  {
    forall f | 0 <= f < |faces| ensures PartialFace(faces[f], [], rem[f], f) && |rem[f]| == 3 {
      assert multiset{} + rem[f] == Sides(Corners(indexArray, f));
    }
    ThreeSidesEach(rem);
  }

  lemma RelabellingKeepsTriangles(
    newIndex: seq<int>, before: seq<Edge>, after: seq<Edge>, faces: seq<Face>, faces': seq<Face>)
    requires Relabels(newIndex, before, after) && Linked(faces, before) && TracesTriangles(faces, before)
    requires FacesRenamed(newIndex, before, faces, faces')
    ensures Linked(faces', after) && TracesTriangles(faces', after)
  {
    RelabellingKeepsLinked(newIndex, before, after, faces, faces');
    forall f | 0 <= f < |faces'|
      ensures OwnsItsEdges(faces', after, f) && ListedSides(after, faces'[f].edgeIndex) == Sides(faces'[f].vertexIndex)
    {
      assert OwnsItsEdges(faces, before, f) && ListedSides(before, faces[f].edgeIndex) == Sides(faces[f].vertexIndex);
    }
  }

  /** What does not depend on how edges are numbered. */
  ghost predicate GoodEdges(edges: seq<Edge>) {
    && Maximal(edges)
    && forall e :: 0 <= e < |edges| ==> HasFace(edges[e]) && SelfEdgeOpen(edges[e]) && edges[e].v0 <= edges[e].v1
  }

  lemma PermutationKeepsGoodEdges(newIndex: seq<int>, oldIndex: seq<int>, before: seq<Edge>, after: seq<Edge>)
    requires Carries(newIndex, oldIndex, before, after) && GoodEdges(before)
    ensures GoodEdges(after)
  {
    forall e, g | 0 <= e < |after| && 0 <= g < |after| ensures NotMates(after[e], after[g]) {
      assert NotMates(before[oldIndex[e]], before[oldIndex[g]]);
    }
    forall e | 0 <= e < |after| ensures HasFace(after[e]) && SelfEdgeOpen(after[e]) && after[e].v0 <= after[e].v1 {
      assert HasFace(before[oldIndex[e]]);
    }
  }

  /** An edge with a face ends in corners of that face. */
  lemma EdgeEndsAreCorners(faces: seq<Face>, edges: seq<Edge>, e: int) returns (f: int)
    requires Linked(faces, edges) && TracesTriangles(faces, edges) && 0 <= e < |edges| && HasFace(edges[e])
    ensures 0 <= f < |faces|
    ensures faces[f].vertexIndex.Contains(edges[e].v0) && faces[f].vertexIndex.Contains(edges[e].v1)
  {
    var r := if edges[e].f0 != NONE then e else Not(e);
    assert SideIsListed(faces, edges, r);
    f := SideFace(edges, r);
    assert OwnsItsEdges(faces, edges, f);
    assert Direction(edges, r) in ListedSides(edges, faces[f].edgeIndex);
    assert Direction(edges, r) in Sides(faces[f].vertexIndex);
  }

  /** Linked faces and edges of a triangle list, in any order. */
  method LinkFaces(n: nat, indexArray: seq<int>, similarity: (int, int) -> real)
    returns (faceArray: seq<Face>, tempEdgeArray: seq<Edge>, vertexArray: seq<Vertex>)
    requires IsTriangleList(n, indexArray)
    ensures FacesAre(faceArray, indexArray)
    ensures Linked(faceArray, tempEdgeArray) && TracesTriangles(faceArray, tempEdgeArray)
    ensures GoodEdges(tempEdgeArray)
    ensures StuckAsTaken(indexArray, similarity, faceArray, tempEdgeArray)
    ensures |vertexArray| == n && CornersAgree(faceArray, vertexArray) && NoEdgesYet(vertexArray)
    ensures CornersCounted(faceArray, vertexArray)
  {
    var edgeTable := new MeshEdgeTable(n);
    ghost var rem;
    faceArray, vertexArray, rem := BuildFaces(n, indexArray, edgeTable);
    ghost var faces := faceArray;
    BuiltIsPartial(indexArray, faceArray, rem);
    BuiltListsHold(indexArray, faceArray, edgeTable.table, rem);
    faceArray, tempEdgeArray, rem := CollapseEdges(edgeTable, faceArray, similarity, rem, indexArray);
    NothingRemains(edgeTable.table, tempEdgeArray, rem);
    CompleteFacesAreLinked(faceArray, tempEdgeArray, rem);
    EdgesAscend(edgeTable.table, tempEdgeArray);
    OrderDecidesStuck(indexArray, similarity, faceArray, tempEdgeArray);
    SameTrianglesAgree(faces, faceArray, vertexArray);
  }

  lemma SameTrianglesAgree(faces: seq<Face>, faces': seq<Face>, vertices: seq<Vertex>)
    requires CornersAgree(faces, vertices) && SameTriangles(faces, faces')
    ensures CornersAgree(faces', vertices)
    ensures CornersCounted(faces, vertices) ==> CornersCounted(faces', vertices)
  {
    if CornersCounted(faces, vertices) {
      forall v, f | 0 <= v < |vertices| && 0 <= f < |faces'| ensures CornerCounted(faces', vertices, v, f) {
        assert CornerCounted(faces, vertices, v, f);
      }
    }
    forall v, f | 0 <= v < |vertices| && f in vertices[v].faceIndex ensures HasCorner(faces', v, f) {
      assert HasCorner(faces, v, f);
    }
    forall f | 0 <= f < |faces'| ensures CornersList(faces', vertices, f) {
      assert CornersList(faces, vertices, f);
    }
  }

  /** MeshAlg::computeAdjacency, with the closeness of two face normals given by similarity. */
  method ComputeAdjacency(n: nat, indexArray: seq<int>, similarity: (int, int) -> real)
    returns (faceArray: seq<Face>, edgeArray: seq<Edge>, vertexArray: seq<Vertex>)
    requires IsTriangleList(n, indexArray)
    ensures FacesAre(faceArray, indexArray) && |vertexArray| == n
    ensures Linked(faceArray, edgeArray) && TracesTriangles(faceArray, edgeArray)
    ensures VerticesAgree(faceArray, edgeArray, vertexArray) && CornersCounted(faceArray, vertexArray)
    ensures PassesDebugCheck(faceArray, edgeArray, vertexArray)
    ensures GoodEdges(edgeArray) && BoundaryLast(edgeArray)
    ensures forall v :: 0 <= v < n ==> NoRepeats(vertexArray[v].edgeIndex)
    ensures LoopsAsTaken(indexArray, similarity, faceArray, edgeArray)
  {
    var tempEdgeArray, vertices, newIndex;
    ghost var oldIndex;
    faceArray, tempEdgeArray, vertices := LinkFaces(n, indexArray, similarity);
    edgeArray, newIndex, oldIndex := MoveBoundaryLast(tempEdgeArray);
    PermutationRelabels(newIndex, oldIndex, tempEdgeArray, edgeArray);
    PermutationKeepsGoodEdges(newIndex, oldIndex, tempEdgeArray, edgeArray);
    ghost var linked := faceArray;
    faceArray := RenameFaces(faceArray, newIndex, tempEdgeArray);
    RelabellingKeepsTriangles(newIndex, tempEdgeArray, edgeArray, linked, faceArray);
    RelabellingKeepsStuck(indexArray, similarity, newIndex, tempEdgeArray, edgeArray, linked, faceArray);
    ghost var renamed := faceArray;
    faceArray := OrderFaces(faceArray, edgeArray);
    OrderingKeepsLinked(edgeArray, renamed, faceArray);
    OrderingMakesLoops(indexArray, similarity, edgeArray, renamed, faceArray);
    SameTrianglesAgree(linked, faceArray, vertices);
    forall e | 0 <= e < |edgeArray| ensures 0 <= edgeArray[e].v0 < n && 0 <= edgeArray[e].v1 < n {
      var f := EdgeEndsAreCorners(faceArray, edgeArray, e);
      assert CornersList(faceArray, vertices, f);
    }
    vertexArray := StoreEdges(vertices, edgeArray);
    SameFaceListsAgree(faceArray, vertices, vertexArray);
    LinkedPassesDebugCheck(faceArray, edgeArray, vertexArray);
  }

  lemma SameFaceListsAgree(faces: seq<Face>, vertices: seq<Vertex>, vertices': seq<Vertex>)
    requires CornersAgree(faces, vertices) && SameFaceLists(vertices, vertices')
    ensures CornersAgree(faces, vertices')
    ensures CornersCounted(faces, vertices) ==> CornersCounted(faces, vertices')
  {
    if CornersCounted(faces, vertices) {
      forall v, f | 0 <= v < |vertices'| && 0 <= f < |faces| ensures CornerCounted(faces, vertices', v, f) {
        assert CornerCounted(faces, vertices, v, f);
      }
    }
    forall v, f | 0 <= v < |vertices'| && f in vertices'[v].faceIndex ensures HasCorner(faces, v, f) {
      assert f in vertices[v].faceIndex;
    }
    forall f | 0 <= f < |faces| ensures CornersList(faces, vertices', f) {
      assert CornersList(faces, vertices, f);
    }
  }

  /** Whatever the normals are, the one face of the list 1, 1, 0 gets its edges in no loop. */
  lemma OneTriangleHasNoLoop(similarity: (int, int) -> real, faces: seq<Face>, edges: seq<Edge>)
    requires FacesAre(faces, [1, 1, 0]) && Linked(faces, edges) && LoopsAsTaken([1, 1, 0], similarity, faces, edges)
    ensures IsTriangleList(2, [1, 1, 0]) && |faces| == 1 && OwnsItsEdges(faces, edges, 0)
    ensures !IsLoop(edges, faces[0].edgeIndex) && StuckListing(edges, faces[0].edgeIndex)
  {
    hide LeftOutOfLoop, StuckListing, IsLoop;
    OneTriangleIsLeftOut(similarity);
  }
}
