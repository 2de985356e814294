/** MeshAlg::weldAdjacency: treating colocated vertices as one, and joining the
    boundary edges that thereby become mates. */
module WeldAdjacency {
  import opened Mesh
  import opened Pairing
  import opened Adjacency
  import opened FaceOrder
  import opened WeldEdges
  import opened MeshWeld

  // ---- weldBoundaryEdges on a linked mesh

  /** Every listed edge reference is renamed in place. */
  ghost predicate RefsRenamed(newIndex: seq<int>, refs: seq<int>, refs': seq<int>) {
    |refs'| == |refs| && forall i :: 0 <= i < |refs| ==>
      Index(refs[i]) < |newIndex| && refs'[i] == Renamed(newIndex, refs[i])
  }

  ghost predicate VerticesRenamed(newIndex: seq<int>, vertices: seq<Vertex>, vertices': seq<Vertex>) {
    && SameFaceLists(vertices, vertices')
    && forall v :: 0 <= v < |vertices| ==> RefsRenamed(newIndex, vertices[v].edgeIndex, vertices'[v].edgeIndex)
  }

  method RenameVertices(vertices: seq<Vertex>, newEdgeIndex: seq<int>) returns (vertexArray: seq<Vertex>)
    requires forall v, r :: 0 <= v < |vertices| && r in vertices[v].edgeIndex ==> Index(r) < |newEdgeIndex|
    ensures VerticesRenamed(newEdgeIndex, vertices, vertexArray)
  {
    vertexArray := vertices;
    for v := 0 to |vertices|
      invariant SameFaceLists(vertices, vertexArray)
      invariant forall w :: v <= w < |vertices| ==> vertexArray[w] == vertices[w]
      invariant forall w :: 0 <= w < v ==> RefsRenamed(newEdgeIndex, vertices[w].edgeIndex, vertexArray[w].edgeIndex)
    {
      var refs := vertices[v].edgeIndex;
      for i := 0 to |refs|
        invariant |refs| == |vertices[v].edgeIndex|
        invariant forall k :: i <= k < |refs| ==> refs[k] == vertices[v].edgeIndex[k]
        invariant forall k :: 0 <= k < i ==>
          Index(vertices[v].edgeIndex[k]) < |newEdgeIndex| && refs[k] == Renamed(newEdgeIndex, vertices[v].edgeIndex[k])
      {
        var e := refs[i];
        assert e in vertices[v].edgeIndex;
        refs := refs[i := if e < 0 then Not(newEdgeIndex[Not(e)]) else newEdgeIndex[e]];
      }
      vertexArray := vertexArray[v := vertexArray[v].(edgeIndex := refs)];
    }
  }

  /** Renaming carries the agreement between vertices and edges over to the new array. */
  lemma RelabellingKeepsVertices(
    newIndex: seq<int>, before: seq<Edge>, after: seq<Edge>, faces: seq<Face>, faces': seq<Face>,
    vertices: seq<Vertex>, vertices': seq<Vertex>)
    requires Relabels(newIndex, before, after) && Linked(faces, before) && FacesRenamed(newIndex, before, faces, faces')
    requires VerticesAgree(faces, before, vertices) && VerticesRenamed(newIndex, vertices, vertices')
    ensures VerticesAgree(faces', after, vertices')
  {
    forall v, r | 0 <= v < |vertices'| && r in vertices'[v].edgeIndex ensures LeavesVertex(after, v, r) {
      assert RefsRenamed(newIndex, vertices[v].edgeIndex, vertices'[v].edgeIndex);
      var i :| 0 <= i < |vertices'[v].edgeIndex| && vertices'[v].edgeIndex[i] == r;
      var s := vertices[v].edgeIndex[i];
      assert s in vertices[v].edgeIndex && LeavesVertex(before, v, s) && RenamesRef(newIndex, before, after, s);
    }
    forall r | IsRef(after, r) ensures BeginLists(after, vertices', r) {
      var s :| ComesFrom(newIndex, before, after, r, s);
      assert RenamesRef(newIndex, before, after, s) && BeginLists(before, vertices, s);
      var v := Begin(before, s);
      var i :| 0 <= i < |vertices[v].edgeIndex| && vertices[v].edgeIndex[i] == s;
      assert RefsRenamed(newIndex, vertices[v].edgeIndex, vertices'[v].edgeIndex);
      assert vertices'[v].edgeIndex[i] == r;
    }
    assert CornersAgree(faces, vertices);
    SameFaceListsAgree(faces, vertices, vertices');
    SameTrianglesAgree(faces, faces', vertices');
  }

  lemma RelabellingKeepsFaces(newIndex: seq<int>, before: seq<Edge>, after: seq<Edge>)
    requires Relabels(newIndex, before, after) && forall e :: 0 <= e < |before| ==> HasFace(before[e])
    ensures forall e :: 0 <= e < |after| ==> HasFace(after[e])
  {
    forall e | 0 <= e < |after| ensures HasFace(after[e]) {
      assert IsRef(after, e);
      var s :| ComesFrom(newIndex, before, after, e, s);
      assert HasFace(before[Index(s)]);
      assert RenamesRef(newIndex, before, after, s) && RenamesRef(newIndex, before, after, Not(s));
    }
  }

  /** The faces of both meshes run their edges through the same vertices in the same order. */
  ghost predicate SameRuns(faces: seq<Face>, edges: seq<Edge>, faces': seq<Face>, edges': seq<Edge>) {
    && SameTriangles(faces, faces')
    && forall f :: 0 <= f < |faces| ==>
      && OwnsItsEdges(faces, edges, f) && OwnsItsEdges(faces', edges', f)
      && Direction(edges', faces'[f].edgeIndex.a) == Direction(edges, faces[f].edgeIndex.a)
      && Direction(edges', faces'[f].edgeIndex.b) == Direction(edges, faces[f].edgeIndex.b)
      && Direction(edges', faces'[f].edgeIndex.c) == Direction(edges, faces[f].edgeIndex.c)
  }

  method WeldBoundaryEdges(faces: seq<Face>, edges: seq<Edge>, vertices: seq<Vertex>)
    returns (faceArray: seq<Face>, edgeArray: seq<Edge>, vertexArray: seq<Vertex>)
    requires Linked(faces, edges) && VerticesAgree(faces, edges, vertices)
    requires forall e :: 0 <= e < |edges| ==> HasFace(edges[e])
    ensures Linked(faceArray, edgeArray) && VerticesAgree(faceArray, edgeArray, vertexArray)
    ensures PassesDebugCheck(faceArray, edgeArray, vertexArray)
    ensures SameRuns(faces, edges, faceArray, edgeArray) && SameFaceLists(vertices, vertexArray)
    ensures NoMatesLeft(edgeArray) && BoundaryLast(edgeArray)
    ensures forall e :: 0 <= e < |edgeArray| ==> HasFace(edgeArray[e])
  {
    var newEdgeIndex;
    newEdgeIndex, edgeArray := PairBoundaryEdges(edges);
    RelabellingKeepsFaces(newEdgeIndex, edges, edgeArray);
    faceArray := RenameFaces(faces, newEdgeIndex, edges);
    RelabellingKeepsLinked(newEdgeIndex, edges, edgeArray, faces, faceArray);
    forall v, r | 0 <= v < |vertices| && r in vertices[v].edgeIndex ensures Index(r) < |newEdgeIndex| {
      assert LeavesVertex(edges, v, r);
    }
    vertexArray := RenameVertices(vertices, newEdgeIndex);
    RelabellingKeepsVertices(newEdgeIndex, edges, edgeArray, faces, faceArray, vertices, vertexArray);
    LinkedPassesDebugCheck(faceArray, edgeArray, vertexArray);
  }

  // ---- moving edges and faces to canonical vertices

  function MovedEdge(canonical: seq<int>, e: Edge): Edge
    requires 0 <= e.v0 < |canonical| && 0 <= e.v1 < |canonical|
  {
    Edge(canonical[e.v0], canonical[e.v1], e.f0, e.f1)
  }

  function MovedTriple(canonical: seq<int>, t: Triple): Triple
    requires InRange(t, |canonical|)
  {
    Triple(canonical[t.a], canonical[t.b], canonical[t.c])
  }

  predicate InRange(t: Triple, n: int) {
    0 <= t.a < n && 0 <= t.b < n && 0 <= t.c < n
  }

  ghost predicate MeshInRange(faces: seq<Face>, edges: seq<Edge>, n: int) {
    && (forall e :: 0 <= e < |edges| ==> 0 <= edges[e].v0 < n && 0 <= edges[e].v1 < n)
    && forall f :: 0 <= f < |faces| ==> InRange(faces[f].vertexIndex, n)
  }

  ghost predicate EdgesMoved(canonical: seq<int>, edges: seq<Edge>, edges': seq<Edge>) {
    |edges'| == |edges| && forall e :: 0 <= e < |edges| ==>
      && 0 <= edges[e].v0 < |canonical| && 0 <= edges[e].v1 < |canonical|
      && edges'[e] == MovedEdge(canonical, edges[e])
  }

  ghost predicate FacesMoved(canonical: seq<int>, faces: seq<Face>, faces': seq<Face>) {
    |faces'| == |faces| && forall f :: 0 <= f < |faces| ==>
      && InRange(faces[f].vertexIndex, |canonical|)
      && faces'[f] == Face(MovedTriple(canonical, faces[f].vertexIndex), faces[f].edgeIndex)
  }

  /** Sides move with their vertices, so equal collections of sides stay equal. */
  lemma MovedSides(x: Side, y: Side, z: Side, t: Triple, canonical: seq<int>, x': Side, y': Side, z': Side)
    requires multiset{x, y, z} == Sides(t) && InRange(t, |canonical|)
    requires 0 <= x.0 < |canonical| && 0 <= x.1 < |canonical| && x' == (canonical[x.0], canonical[x.1])
    requires 0 <= y.0 < |canonical| && 0 <= y.1 < |canonical| && y' == (canonical[y.0], canonical[y.1])
    requires 0 <= z.0 < |canonical| && 0 <= z.1 < |canonical| && z' == (canonical[z.0], canonical[z.1])
    ensures multiset{x', y', z'} == Sides(MovedTriple(canonical, t))
  {
    SixListings(x, y, z, (t.a, t.b), (t.b, t.c), (t.c, t.a));
  }

  lemma MovingKeepsRef(canonical: seq<int>, edges: seq<Edge>, edges': seq<Edge>, r: int)
    requires EdgesMoved(canonical, edges, edges') && IsRef(edges, r)
    ensures IsRef(edges', r) && SideFace(edges', r) == SideFace(edges, r)
    ensures 0 <= Begin(edges, r) < |canonical| && 0 <= End(edges, r) < |canonical|
    ensures Direction(edges', r) == (canonical[Begin(edges, r)], canonical[End(edges, r)])
  {
  }

  lemma MovingKeepsFace(
    canonical: seq<int>, faces: seq<Face>, edges: seq<Edge>, faces': seq<Face>, edges': seq<Edge>, f: int)
    requires EdgesMoved(canonical, edges, edges') && FacesMoved(canonical, faces, faces')
    requires 0 <= f < |faces| && OwnsItsEdges(faces, edges, f)
    requires ListedSides(edges, faces[f].edgeIndex) == Sides(faces[f].vertexIndex)
    ensures OwnsItsEdges(faces', edges', f)
    ensures ListedSides(edges', faces'[f].edgeIndex) == Sides(faces'[f].vertexIndex)
    ensures IsLoop(edges, faces[f].edgeIndex) ==> IsLoop(edges', faces'[f].edgeIndex)
  {
    var t := faces[f].edgeIndex;
    MovingKeepsRef(canonical, edges, edges', t.a);
    MovingKeepsRef(canonical, edges, edges', t.b);
    MovingKeepsRef(canonical, edges, edges', t.c);
    MovedSides(Direction(edges, t.a), Direction(edges, t.b), Direction(edges, t.c), faces[f].vertexIndex, canonical,
      Direction(edges', t.a), Direction(edges', t.b), Direction(edges', t.c));
  }

  /** Moving vertices keeps who refers to whom; every loop stays a loop. */
  lemma MovingKeepsLinked(
    canonical: seq<int>, faces: seq<Face>, edges: seq<Edge>, faces': seq<Face>, edges': seq<Edge>)
    requires Linked(faces, edges) && TracesTriangles(faces, edges)
    requires EdgesMoved(canonical, edges, edges') && FacesMoved(canonical, faces, faces')
    ensures Linked(faces', edges') && TracesTriangles(faces', edges')
    ensures LoopsStay(faces, edges, faces', edges')
  {
    forall f | 0 <= f < |faces|
      ensures OwnsItsEdges(faces, edges, f) && OwnsItsEdges(faces', edges', f)
      ensures ListedSides(edges', faces'[f].edgeIndex) == Sides(faces'[f].vertexIndex)
      ensures IsLoop(edges, faces[f].edgeIndex) ==> IsLoop(edges', faces'[f].edgeIndex)
    {
      assert OwnsItsEdges(faces, edges, f) && ListedSides(edges, faces[f].edgeIndex) == Sides(faces[f].vertexIndex);
      MovingKeepsFace(canonical, faces, edges, faces', edges', f);
    }
    forall r | IsRef(edges', r) ensures SideIsListed(faces', edges', r) {
      MovingKeepsRef(canonical, edges, edges', r);
      assert SideIsListed(faces, edges, r);
    }
  }

  /** Faces whose edges went around a loop still do. */
  ghost predicate LoopsStay(faces: seq<Face>, edges: seq<Edge>, faces': seq<Face>, edges': seq<Edge>) {
    |faces'| == |faces| && forall f :: 0 <= f < |faces| ==>
      && OwnsItsEdges(faces, edges, f) && OwnsItsEdges(faces', edges', f)
      && (IsLoop(edges, faces[f].edgeIndex) ==> IsLoop(edges', faces'[f].edgeIndex))
  }

  // ---- the whole operation

  /** canonical is the round trip through the maps of a weld with this radius. */
  ghost predicate IsCanonical(vertices: seq<Vector3>, radius: real, canonical: seq<int>) {
    exists newVertices, toNew, toOld :: IsRoundTrip(vertices, radius, canonical, newVertices, toNew, toOld)
  }

  ghost predicate IsRoundTrip(
    vertices: seq<Vector3>, radius: real, canonical: seq<int>, newVertices: seq<Vector3>, toNew: seq<int>, toOld: seq<int>)
  {
    && IsWelded(vertices, radius, newVertices, toNew, toOld)
    && |canonical| == |vertices|
    && forall v :: 0 <= v < |vertices| ==> 0 <= toNew[v] < |toOld| && canonical[v] == Canonical(toNew, toOld, v)
  }

  /** Every vertex has a representative that represents itself and is never far away. */
  lemma CanonicalRepresents(vertices: seq<Vector3>, radius: real, canonical: seq<int>, v: int)
    requires IsCanonical(vertices, radius, canonical) && 0 <= v < |vertices|
    ensures |canonical| == |vertices| && 0 <= canonical[v] < |vertices| && v <= canonical[v]
    ensures canonical[canonical[v]] == canonical[v]
    ensures SquaredDistance(vertices[v], vertices[canonical[v]]) <= 4.0 * (radius * radius)
  {
    var newVertices, toNew, toOld :| IsRoundTrip(vertices, radius, canonical, newVertices, toNew, toOld);
    CanonicalIsRepresentative(vertices, radius, newVertices, toNew, toOld, v);
    assert IsLastMapped(toNew, toNew[v], toOld[toNew[v]]);
  }

  /** n is the vertex of a radius net that stands for v: the closest one, and near. */
  ghost predicate StandsFor(newVertices: seq<Vector3>, radius: real, n: int, v: Vector3) {
    IsClosest(newVertices, v, n) && Near(newVertices[n], v, radius)
  }

  /** Two vertices are welded exactly when the same vertex of a radius net stands for both. */
  lemma WeldedIff(
    vertices: seq<Vector3>, radius: real, canonical: seq<int>, newVertices: seq<Vector3>, toNew: seq<int>, toOld: seq<int>,
    u: int, v: int)
    requires IsRoundTrip(vertices, radius, canonical, newVertices, toNew, toOld)
    requires 0 <= u < |vertices| && 0 <= v < |vertices|
    ensures IsNet(newVertices, radius)
    ensures canonical[u] == canonical[v] <==>
      exists n :: StandsFor(newVertices, radius, n, vertices[u]) && StandsFor(newVertices, radius, n, vertices[v])
  {
    SameCanonical(vertices, radius, newVertices, toNew, toOld, u, v);
    assert StandsFor(newVertices, radius, toNew[u], vertices[u]) && StandsFor(newVertices, radius, toNew[v], vertices[v]);
    if n :| StandsFor(newVertices, radius, n, vertices[u]) && StandsFor(newVertices, radius, n, vertices[v]) {
      ClosestIsOnly(newVertices, vertices[u], n, toNew[u]);
      ClosestIsOnly(newVertices, vertices[v], n, toNew[v]);
    }
  }

  lemma ClosestIsOnly(vertices: seq<Vector3>, q: Vector3, m: int, n: int)
    requires IsClosest(vertices, q, m) && IsClosest(vertices, q, n)
    ensures m == n
  {
    assert SquaredDistance(vertices[m], q) <= SquaredDistance(vertices[n], q);
    assert SquaredDistance(vertices[n], q) <= SquaredDistance(vertices[m], q);
  }

  /** What is near something near is near. */
  ghost predicate NearInGroups(vertices: seq<Vector3>, radius: real) {
    forall i, j, k ::
      (0 <= i < |vertices| && 0 <= j < |vertices| && 0 <= k < |vertices|
        && Near(vertices[i], vertices[j], radius) && Near(vertices[j], vertices[k], radius))
      ==> Near(vertices[i], vertices[k], radius)
  }

  /** Where near vertices come in groups, exactly the near ones are welded. */
  lemma GroupsAreWelded(vertices: seq<Vector3>, radius: real, canonical: seq<int>, u: int, v: int)
    requires IsCanonical(vertices, radius, canonical) && NearInGroups(vertices, radius)
    requires 0 <= u < |vertices| && 0 <= v < |vertices|
    ensures |canonical| == |vertices| && (canonical[u] == canonical[v] <==> Near(vertices[u], vertices[v], radius))
  {
    var newVertices, toNew, toOld :| IsRoundTrip(vertices, radius, canonical, newVertices, toNew, toOld);
    SameCanonical(vertices, radius, newVertices, toNew, toOld, u, v);
    var m, n := toNew[u], toNew[v];
    assert IsClosest(newVertices, vertices[u], m) && IsClosest(newVertices, vertices[v], n);
    assert newVertices[m] in vertices && newVertices[n] in vertices;
    var i :| 0 <= i < |vertices| && vertices[i] == newVertices[m];
    var j :| 0 <= j < |vertices| && vertices[j] == newVertices[n];
    DistanceSymmetric(vertices[i], vertices[u]);
    DistanceSymmetric(vertices[j], vertices[v]);
    DistanceSymmetric(newVertices[m], newVertices[n]);
    if Near(vertices[u], vertices[v], radius) {
      assert Near(vertices[i], vertices[v], radius);
      assert Near(vertices[i], vertices[j], radius);
    }
  }

  /** The representatives of three vertices, two of them near each other. */
  lemma ThreeVerticesWelded(canonical: seq<int>)
    requires IsCanonical(THREE_VERTICES, 0.03, canonical)
    ensures RadiusFits(THREE_VERTICES, 0.03) && canonical == [1, 1, 2]
  {
    hide NearInGroups, IsCanonical, Near, RadiusFits;
    ThreeVerticesInGroups();
    GroupsAreWelded(THREE_VERTICES, 0.03, canonical, 0, 1);
    GroupsAreWelded(THREE_VERTICES, 0.03, canonical, 1, 2);
    CanonicalRepresents(THREE_VERTICES, 0.03, canonical, 0);
    CanonicalRepresents(THREE_VERTICES, 0.03, canonical, 1);
    CanonicalRepresents(THREE_VERTICES, 0.03, canonical, 2);
    FarApartFits();
  }

  lemma ThreeVerticesInGroups()
    ensures NearInGroups(THREE_VERTICES, 0.03)
    ensures Near(THREE_VERTICES[0], THREE_VERTICES[1], 0.03) && !Near(THREE_VERTICES[1], THREE_VERTICES[2], 0.03)
  {
    hide Near;
    ThreeDistances(0, 1);
    ThreeDistances(1, 2);
    forall i, j, k | 0 <= i < 3 && 0 <= j < 3 && 0 <= k < 3
      && Near(THREE_VERTICES[i], THREE_VERTICES[j], 0.03) && Near(THREE_VERTICES[j], THREE_VERTICES[k], 0.03)
      ensures Near(THREE_VERTICES[i], THREE_VERTICES[k], 0.03)
    {
      ThreeDistances(i, j);
      ThreeDistances(j, k);
      ThreeDistances(i, k);
    }
  }

  lemma ThreeDistances(i: nat, j: nat)
    requires i < 3 && j < 3
    ensures Near(THREE_VERTICES[i], THREE_VERTICES[j], 0.03) <==> ((i == 2) == (j == 2))
  {
    var p, q, far := Vector3(0.0, 0.0, 0.0), Vector3(0.01, 0.0, 0.0), Vector3(100.0, 0.0, 0.0);
    assert SquaredDistance(p, q) == 0.01 * 0.01 == SquaredDistance(q, p);
    assert SquaredDistance(p, far) == 100.0 * 100.0 == SquaredDistance(far, p);
    assert SquaredDistance(q, far) == 99.99 * 99.99 == SquaredDistance(far, q);
    assert SquaredDistance(p, p) == SquaredDistance(q, q) == SquaredDistance(far, far) == 0.0;
  }

  const THREE_VERTICES := [Vector3(0.0, 0.0, 0.0), Vector3(0.01, 0.0, 0.0), Vector3(100.0, 0.0, 0.0)]

  /** Round-trips every vertex through the welder's two maps. */
  method ComputeCanonical(originalGeometry: seq<Vector3>, radius: real) returns (canonical: seq<int>)
    requires RadiusFits(originalGeometry, radius)
    ensures IsCanonical(originalGeometry, radius, canonical)
  {
    var welder := new Welder(originalGeometry, radius);
    welder.Weld();
    canonical := seq(|originalGeometry|, _ => 0);
    ghost var new_ := welder.newVertexArray;
    for v := 0 to |canonical|
      invariant |canonical| == |originalGeometry|
      invariant IsWelded(originalGeometry, radius, new_, welder.toNew, welder.toOld)
      invariant forall u :: 0 <= u < v ==>
        && 0 <= welder.toNew[u] < |welder.toOld| && canonical[u] == Canonical(welder.toNew, welder.toOld, u)
    {
      CanonicalIsRepresentative(originalGeometry, radius, new_, welder.toNew, welder.toOld, v);
      canonical := canonical[v := welder.toOld[welder.toNew[v]]];
    }
    assert IsRoundTrip(originalGeometry, radius, canonical, new_, welder.toNew, welder.toOld);
  }

  /** Every edge gets the representatives of its ends, which then list it. */
  method MoveEdges(edges: seq<Edge>, canonical: seq<int>, n: nat)
    returns (edgeArray: seq<Edge>, vertexArray: seq<Vertex>, hasBoundaryEdges: bool)
    requires forall e :: 0 <= e < |edges| ==> 0 <= edges[e].v0 < |canonical| && 0 <= edges[e].v1 < |canonical|
    requires forall v :: 0 <= v < |canonical| ==> 0 <= canonical[v] < n
    ensures EdgesMoved(canonical, edges, edgeArray)
    ensures |vertexArray| == n && forall v :: 0 <= v < n ==> vertexArray[v].faceIndex == []
    ensures forall v, r :: 0 <= v < |vertexArray| && r in vertexArray[v].edgeIndex ==> LeavesVertex(edgeArray, v, r)
    ensures forall r :: IsRef(edgeArray, r) ==> BeginLists(edgeArray, vertexArray, r)
    ensures hasBoundaryEdges <==> exists e :: 0 <= e < |edgeArray| && edgeArray[e].Boundary()
  {
    edgeArray, hasBoundaryEdges := edges, false;
    for e := 0 to |edges|
      invariant |edgeArray| == |edges|
      invariant forall k :: e <= k < |edges| ==> edgeArray[k] == edges[k]
      invariant forall k :: 0 <= k < e ==> edgeArray[k] == MovedEdge(canonical, edges[k])
      invariant hasBoundaryEdges <==> exists k :: 0 <= k < e && edgeArray[k].Boundary()
    {
      var edge := edgeArray[e];
      var v0, v1 := canonical[edge.v0], canonical[edge.v1];
      edgeArray := edgeArray[e := edge.(v0 := v0, v1 := v1)];
      hasBoundaryEdges := hasBoundaryEdges || edge.Boundary();
    }
    var empty := seq(n, _ => Vertex([], []));
    vertexArray := StoreEdges(empty, edgeArray);
  }

  /** Moves the corners of every face, which then list the face again. */
  method MoveFaces(faces: seq<Face>, canonical: seq<int>, vertices: seq<Vertex>)
    returns (faceArray: seq<Face>, vertexArray: seq<Vertex>)
    requires forall f :: 0 <= f < |faces| ==> InRange(faces[f].vertexIndex, |canonical|)
    requires forall v :: 0 <= v < |canonical| ==> 0 <= canonical[v] < |vertices|
    requires forall v :: 0 <= v < |vertices| ==> vertices[v].faceIndex == []
    ensures FacesMoved(canonical, faces, faceArray)
    ensures CornersAgree(faceArray, vertexArray) && CornersCounted(faceArray, vertexArray)
    ensures |vertexArray| == |vertices|
    ensures forall v :: 0 <= v < |vertices| ==> vertexArray[v].edgeIndex == vertices[v].edgeIndex
  {
    faceArray, vertexArray := [], vertices;
    for f := 0 to |faces|
      invariant |faceArray| == f && |vertexArray| == |vertices|
      invariant forall g :: 0 <= g < f ==>
        faceArray[g] == Face(MovedTriple(canonical, faces[g].vertexIndex), faces[g].edgeIndex)
      invariant CornersAgree(faceArray, vertexArray) && CornersCounted(faceArray, vertexArray)
      invariant forall v :: 0 <= v < |vertices| ==> vertexArray[v].edgeIndex == vertices[v].edgeIndex
    {
      var face := Face(MovedTriple(canonical, faces[f].vertexIndex), faces[f].edgeIndex);
      ghost var before := vertexArray;
      vertexArray := WithFace(vertexArray, face.vertexIndex.a, f);
      vertexArray := WithFace(vertexArray, face.vertexIndex.b, f);
      vertexArray := WithFace(vertexArray, face.vertexIndex.c, f);
      CornersGrow(faceArray, before, face, vertexArray);
      NewFaceCounted(faceArray, before, face, vertexArray);
      faceArray := faceArray + [face];
    }
  }

  lemma CornersGrow(faces: seq<Face>, vertices: seq<Vertex>, face: Face, vertices': seq<Vertex>)
    requires CornersAgree(faces, vertices) && InRange(face.vertexIndex, |vertices|)
    requires var t := face.vertexIndex;
      vertices' == WithFace(WithFace(WithFace(vertices, t.a, |faces|), t.b, |faces|), t.c, |faces|)
    ensures CornersAgree(faces + [face], vertices')
  {
    forall v, f | 0 <= v < |vertices'| && f in vertices'[v].faceIndex ensures HasCorner(faces + [face], v, f) {
      assert f in vertices[v].faceIndex ==> HasCorner(faces, v, f);
    }
    forall f | 0 <= f < |faces| + 1 ensures CornersList(faces + [face], vertices', f) {
      assert f < |faces| ==> CornersList(faces, vertices, f);
    }
  }

  /** Faces refer to the canonical vertices of their old corners. */
  ghost predicate CornersMoved(canonical: seq<int>, faces: seq<Face>, faces': seq<Face>) {
    |faces'| == |faces| && forall f :: 0 <= f < |faces| ==>
      InRange(faces[f].vertexIndex, |canonical|) && faces'[f].vertexIndex == MovedTriple(canonical, faces[f].vertexIndex)
  }

  /** MeshAlg::weldAdjacency. */
  method WeldAdjacency(originalGeometry: seq<Vector3>, faces: seq<Face>, edges: seq<Edge>, radius: real)
    returns (faceArray: seq<Face>, edgeArray: seq<Edge>, vertexArray: seq<Vertex>, ghost canonical: seq<int>)
    requires RadiusFits(originalGeometry, radius) && MeshInRange(faces, edges, |originalGeometry|)
    requires Linked(faces, edges) && TracesTriangles(faces, edges)
    requires forall e :: 0 <= e < |edges| ==> HasFace(edges[e])
    ensures IsCanonical(originalGeometry, radius, canonical) && CornersMoved(canonical, faces, faceArray)
    ensures Linked(faceArray, edgeArray) && TracesTriangles(faceArray, edgeArray) && LoopsStay(faces, edges, faceArray, edgeArray)
    ensures |vertexArray| == |originalGeometry| && PassesDebugCheck(faceArray, edgeArray, vertexArray)
    ensures VerticesAgree(faceArray, edgeArray, vertexArray) && CornersCounted(faceArray, vertexArray)
    ensures NoMatesLeft(edgeArray) && BoundaryLast(edgeArray)
    ensures forall e :: 0 <= e < |edgeArray| ==> HasFace(edgeArray[e])
  {
    var canon := ComputeCanonical(originalGeometry, radius);
    canonical := canon;
    var hasBoundaryEdges;
    edgeArray, vertexArray, hasBoundaryEdges := MoveEdges(edges, canon, |originalGeometry|);
    ghost var vertices := vertexArray;
    faceArray, vertexArray := MoveFaces(faces, canon, vertexArray);
    MovingKeepsLinked(canonical, faces, edges, faceArray, edgeArray);
    forall e | 0 <= e < |edgeArray| ensures HasFace(edgeArray[e]) {
      assert HasFace(edges[e]);
    }
    EdgesStayListed(faceArray, edgeArray, vertices, vertexArray);
    if hasBoundaryEdges {
      ghost var moved, movedEdges, movedVertices := faceArray, edgeArray, vertexArray;
      faceArray, edgeArray, vertexArray := WeldBoundaryEdges(faceArray, edgeArray, vertexArray);
      SameTrianglesAgree(moved, faceArray, movedVertices);
      SameFaceListsAgree(faceArray, movedVertices, vertexArray);
      RunsStay(faces, edges, moved, movedEdges, faceArray, edgeArray);
    } else {
      assert BoundaryFrom(edgeArray, |edgeArray|);
      LinkedPassesDebugCheck(faceArray, edgeArray, vertexArray);
    }
  }

  lemma EdgesStayListed(faces: seq<Face>, edges: seq<Edge>, vertices: seq<Vertex>, vertices': seq<Vertex>)
    requires CornersAgree(faces, vertices') && |vertices'| == |vertices|
    requires forall v :: 0 <= v < |vertices| ==> vertices'[v].edgeIndex == vertices[v].edgeIndex
    requires forall v, r :: 0 <= v < |vertices| && r in vertices[v].edgeIndex ==> LeavesVertex(edges, v, r)
    requires forall r :: IsRef(edges, r) ==> BeginLists(edges, vertices, r)
    ensures VerticesAgree(faces, edges, vertices')
  {
    forall r | IsRef(edges, r) ensures BeginLists(edges, vertices', r) {
      assert BeginLists(edges, vertices, r);
    }
  }

  lemma RunsStay(
    faces: seq<Face>, edges: seq<Edge>, moved: seq<Face>, movedEdges: seq<Edge>, faces': seq<Face>, edges': seq<Edge>)
    requires Linked(moved, movedEdges) && TracesTriangles(moved, movedEdges) && Linked(faces', edges')
    requires LoopsStay(faces, edges, moved, movedEdges) && SameRuns(moved, movedEdges, faces', edges')
    ensures TracesTriangles(faces', edges') && LoopsStay(faces, edges, faces', edges')
  {
    forall f | 0 <= f < |faces'|
      ensures OwnsItsEdges(faces', edges', f)
      ensures ListedSides(edges', faces'[f].edgeIndex) == Sides(faces'[f].vertexIndex)
      ensures IsLoop(movedEdges, moved[f].edgeIndex) ==> IsLoop(edges', faces'[f].edgeIndex)
    {
      assert OwnsItsEdges(moved, movedEdges, f) && ListedSides(movedEdges, moved[f].edgeIndex) == Sides(moved[f].vertexIndex);
    }
  }
}
