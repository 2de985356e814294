/** The signed half-edge mesh of MeshAlg: faces, edges and vertices that refer
    to each other by index, and what it means for the references to agree.

    A reference to an edge is its index e for the forward direction and the
    complement of e for the backward one. Side 0 of an edge belongs to the face
    that runs it forwards, side 1 to the face that runs it backwards. */
module Mesh {

  /** Face::NONE, the smallest 32-bit integer. */
  const NONE: int := -0x8000_0000

  const MAX_INT: int := 0x7fff_ffff

  /** The bitwise complement. */
  function Not(e: int): int {
    -1 - e
  }

  datatype Triple = Triple(a: int, b: int, c: int) {
    function At(i: nat): int
      requires i < 3
    {
      if i == 0 then a else if i == 1 then b else c
    }

    function With(i: nat, x: int): Triple
      requires i < 3
    {
      if i == 0 then this.(a := x) else if i == 1 then this.(b := x) else this.(c := x)
    }

    predicate Contains(x: int) {
      a == x || b == x || c == x
    }

    predicate AllDifferent() {
      a != b && a != c && b != c
    }
  }

  datatype Face = Face(vertexIndex: Triple, edgeIndex: Triple)

  /** v0 and v1 are vertexIndex[0] and [1]; f0 and f1 are faceIndex[0] and [1]. */
  datatype Edge = Edge(v0: int, v1: int, f0: int, f1: int) {
    predicate Boundary() {
      f0 == NONE || f1 == NONE
    }
  }

  datatype Vertex = Vertex(edgeIndex: seq<int>, faceIndex: seq<int>)

  // ---- references

  function Index(r: int): (e: int)
    ensures e >= 0
  {
    if r >= 0 then r else Not(r)
  }

  predicate IsRef(edges: seq<Edge>, r: int) {
    Index(r) < |edges|
  }

  /** The face on the side of its edge that r refers to, or NONE. */
  function SideFace(edges: seq<Edge>, r: int): int
    requires IsRef(edges, r)
  {
    if r >= 0 then edges[r].f0 else edges[Not(r)].f1
  }

  function Begin(edges: seq<Edge>, r: int): int
    requires IsRef(edges, r)
  {
    if r >= 0 then edges[r].v0 else edges[Not(r)].v1
  }

  function End(edges: seq<Edge>, r: int): int
    requires IsRef(edges, r)
  {
    if r >= 0 then edges[r].v1 else edges[Not(r)].v0
  }

  /** The directed edge r refers to. */
  function Direction(edges: seq<Edge>, r: int): (int, int)
    requires IsRef(edges, r)
  {
    (Begin(edges, r), End(edges, r))
  }

  // ---- agreement between faces and edges

  /** The edges of face f are three different references to sides owned by f. */
  ghost predicate OwnsItsEdges(faces: seq<Face>, edges: seq<Edge>, f: int)
    requires 0 <= f < |faces|
  {
    var t := faces[f].edgeIndex;
    && t.AllDifferent()
    && IsRef(edges, t.a) && SideFace(edges, t.a) == f
    && IsRef(edges, t.b) && SideFace(edges, t.b) == f
    && IsRef(edges, t.c) && SideFace(edges, t.c) == f
  }

  /** The face recorded on side r lists r among its edges. */
  ghost predicate SideIsListed(faces: seq<Face>, edges: seq<Edge>, r: int)
    requires IsRef(edges, r)
  {
    SideFace(edges, r) != NONE ==>
      0 <= SideFace(edges, r) < |faces| && faces[SideFace(edges, r)].edgeIndex.Contains(r)
  }

  /** Face slots and occupied edge sides are in one-to-one correspondence. */
  ghost predicate Linked(faces: seq<Face>, edges: seq<Edge>) {
    && (forall f :: 0 <= f < |faces| ==> OwnsItsEdges(faces, edges, f))
    && forall r :: IsRef(edges, r) ==> SideIsListed(faces, edges, r)
  }

  /** The three directed sides of a triangle. */
  function Sides(t: Triple): multiset<(int, int)> {
    multiset{(t.a, t.b), (t.b, t.c), (t.c, t.a)}
  }

  /** The three directed edges a face lists. */
  ghost function ListedSides(edges: seq<Edge>, t: Triple): multiset<(int, int)>
    requires IsRef(edges, t.a) && IsRef(edges, t.b) && IsRef(edges, t.c)
  {
    multiset{Direction(edges, t.a), Direction(edges, t.b), Direction(edges, t.c)}
  }

  /** The f-th triangle of the list. */
  function Corners(indexArray: seq<int>, f: nat): Triple
    requires 3 * f + 2 < |indexArray|
  {
    Triple(indexArray[3 * f], indexArray[3 * f + 1], indexArray[3 * f + 2])
  }

  /** Every face lists exactly the directed sides of its own triangle. */
  ghost predicate TracesTriangles(faces: seq<Face>, edges: seq<Edge>)
    requires Linked(faces, edges)
  {
    forall f :: 0 <= f < |faces| ==>
      OwnsItsEdges(faces, edges, f) && ListedSides(edges, faces[f].edgeIndex) == Sides(faces[f].vertexIndex)
  }

  /** The listed edges of a face follow each other around a loop. */
  ghost predicate IsLoop(edges: seq<Edge>, t: Triple)
    requires IsRef(edges, t.a) && IsRef(edges, t.b) && IsRef(edges, t.c)
  {
    End(edges, t.a) == Begin(edges, t.b) && End(edges, t.b) == Begin(edges, t.c) && End(edges, t.c) == Begin(edges, t.a)
  }

  ghost predicate BoundaryLast(edges: seq<Edge>) {
    exists k :: 0 <= k <= |edges| && BoundaryFrom(edges, k)
  }

  ghost predicate BoundaryFrom(edges: seq<Edge>, k: int) {
    forall e :: 0 <= e < |edges| ==> (edges[e].Boundary() <==> k <= e)
  }

  // ---- agreement between vertices and the rest

  /** An edge reference listed by vertex v leaves v. */
  ghost predicate LeavesVertex(edges: seq<Edge>, v: int, r: int) {
    IsRef(edges, r) && Begin(edges, r) == v
  }

  /** A face listed by vertex v has v as a corner. */
  predicate HasCorner(faces: seq<Face>, v: int, f: int) {
    0 <= f < |faces| && faces[f].vertexIndex.Contains(v)
  }

  /** The vertex an edge reference leaves lists it. */
  ghost predicate BeginLists(edges: seq<Edge>, vertices: seq<Vertex>, r: int)
    requires IsRef(edges, r)
  {
    0 <= Begin(edges, r) < |vertices| && r in vertices[Begin(edges, r)].edgeIndex
  }

  /** Corner v of face f lists the face. */
  predicate CornerLists(vertices: seq<Vertex>, v: int, f: int) {
    0 <= v < |vertices| && f in vertices[v].faceIndex
  }

  predicate CornersList(faces: seq<Face>, vertices: seq<Vertex>, f: int)
    requires 0 <= f < |faces|
  {
    var t := faces[f].vertexIndex;
    CornerLists(vertices, t.a, f) && CornerLists(vertices, t.b, f) && CornerLists(vertices, t.c, f)
  }

  /** Vertex lists and the corners of faces and ends of edges refer to each other. */
  ghost predicate VerticesAgree(faces: seq<Face>, edges: seq<Edge>, vertices: seq<Vertex>) {
    && (forall v, r :: 0 <= v < |vertices| && r in vertices[v].edgeIndex ==> LeavesVertex(edges, v, r))
    && (forall v, f :: 0 <= v < |vertices| && f in vertices[v].faceIndex ==> HasCorner(faces, v, f))
    && (forall r :: IsRef(edges, r) ==> BeginLists(edges, vertices, r))
    && (forall f :: 0 <= f < |faces| ==> CornersList(faces, vertices, f))
  }

  // ---- the repository's own consistency check

  predicate ContainsEdge(face: Face, e: int) {
    face.edgeIndex.Contains(Index(e)) || face.edgeIndex.Contains(Not(Index(e)))
  }

  predicate InEdge(vertex: Vertex, e: int) {
    Not(e) in vertex.edgeIndex || e in vertex.edgeIndex
  }

  predicate EdgeContainsVertex(edges: seq<Edge>, v: int, e: int) {
    IsRef(edges, e) && (edges[Index(e)].v0 == v || edges[Index(e)].v1 == v)
  }

  predicate EdgeCheck(faces: seq<Face>, edges: seq<Edge>, vertices: seq<Vertex>, e: int)
    requires 0 <= e < |edges|
  {
    && (edges[e].f0 == NONE || (0 <= edges[e].f0 < |faces| && ContainsEdge(faces[edges[e].f0], e)))
    && (edges[e].f1 == NONE || (0 <= edges[e].f1 < |faces| && ContainsEdge(faces[edges[e].f1], e)))
    && 0 <= edges[e].v0 < |vertices| && InEdge(vertices[edges[e].v0], e)
    && 0 <= edges[e].v1 < |vertices| && InEdge(vertices[edges[e].v1], e)
  }

  predicate FaceCheck(faces: seq<Face>, edges: seq<Edge>, vertices: seq<Vertex>, f: int, i: nat)
    requires 0 <= f < |faces| && i < 3
  {
    var e := faces[f].edgeIndex.At(i);
    && IsRef(edges, e)
    && (edges[Index(e)].f0 == f || edges[Index(e)].f1 == f)
    && (if e >= 0 then edges[Index(e)].f0 == f else edges[Index(e)].f1 == f)
    && CornerLists(vertices, faces[f].vertexIndex.At(i), f)
  }

  /** Every assertion of debugCheckConsistency, with the index bounds it relies on. */
  ghost predicate PassesDebugCheck(faces: seq<Face>, edges: seq<Edge>, vertices: seq<Vertex>) {
    && (forall v, e :: 0 <= v < |vertices| && e in vertices[v].edgeIndex ==> EdgeContainsVertex(edges, v, e))
    && (forall v, f :: 0 <= v < |vertices| && f in vertices[v].faceIndex ==> HasCorner(faces, v, f))
    && (forall e :: 0 <= e < |edges| ==> EdgeCheck(faces, edges, vertices, e))
    && (forall f, i :: 0 <= f < |faces| && 0 <= i < 3 ==> FaceCheck(faces, edges, vertices, f, i))
  }

  lemma LinkedPassesDebugCheck(faces: seq<Face>, edges: seq<Edge>, vertices: seq<Vertex>)
    requires Linked(faces, edges) && VerticesAgree(faces, edges, vertices)
    ensures PassesDebugCheck(faces, edges, vertices)
  {
    forall v, e | 0 <= v < |vertices| && e in vertices[v].edgeIndex ensures EdgeContainsVertex(edges, v, e) {
      assert LeavesVertex(edges, v, e);
    }
    forall e | 0 <= e < |edges| ensures EdgeCheck(faces, edges, vertices, e) {
      assert SideIsListed(faces, edges, e) && BeginLists(edges, vertices, e);
      assert IsRef(edges, Not(e)) && SideIsListed(faces, edges, Not(e)) && BeginLists(edges, vertices, Not(e));
    }
    forall f, i | 0 <= f < |faces| && 0 <= i < 3 ensures FaceCheck(faces, edges, vertices, f, i) {
      assert OwnsItsEdges(faces, edges, f) && CornersList(faces, vertices, f);
    }
  }

  /** A vertex listing r is the first vertex of its edge, as the header says, exactly when r is a forward
      reference or both vertices of the edge are the same. */
  lemma FirstVertexIff(faces: seq<Face>, edges: seq<Edge>, vertices: seq<Vertex>, v: int, r: int)
    requires VerticesAgree(faces, edges, vertices)
    requires 0 <= v < |vertices| && r in vertices[v].edgeIndex
    ensures IsRef(edges, r)
    ensures edges[Index(r)].v0 == v <==> r >= 0 || edges[Index(r)].v0 == edges[Index(r)].v1
  {
    assert LeavesVertex(edges, v, r);
  }

  /** A single triangle. */
  const ONE_FACE := [Face(Triple(0, 1, 2), Triple(0, 1, Not(2)))]
  const ONE_FACE_EDGES := [Edge(0, 1, 0, NONE), Edge(1, 2, 0, NONE), Edge(0, 2, NONE, 0)]
  const ONE_FACE_VERTICES := [Vertex([0, 2], [0]), Vertex([Not(0), 1], [0]), Vertex([Not(1), Not(2)], [0])]

  lemma OneFaceIsLinked()
    ensures Linked(ONE_FACE, ONE_FACE_EDGES)
  {
    assert OwnsItsEdges(ONE_FACE, ONE_FACE_EDGES, 0);
    forall r | IsRef(ONE_FACE_EDGES, r) ensures SideIsListed(ONE_FACE, ONE_FACE_EDGES, r) {
      assert r == 0 || r == 1 || r == 2 || r == Not(0) || r == Not(1) || r == Not(2);
    }
  }

  lemma OneFaceVerticesAgree()
    ensures VerticesAgree(ONE_FACE, ONE_FACE_EDGES, ONE_FACE_VERTICES)
  {
    forall v, r | 0 <= v < 3 && r in ONE_FACE_VERTICES[v].edgeIndex ensures LeavesVertex(ONE_FACE_EDGES, v, r) {
      assert v == 0 || v == 1 || v == 2;
    }
    forall r | IsRef(ONE_FACE_EDGES, r) ensures BeginLists(ONE_FACE_EDGES, ONE_FACE_VERTICES, r) {
      OneFaceRef(r);
    }
    assert CornersList(ONE_FACE, ONE_FACE_VERTICES, 0);
  }

  lemma OneFaceRef(r: int)
    requires IsRef(ONE_FACE_EDGES, r)
    ensures BeginLists(ONE_FACE_EDGES, ONE_FACE_VERTICES, r)
  {
    assert r == 0 || r == 1 || r == 2 || r == Not(0) || r == Not(1) || r == Not(2);
    assert ONE_FACE_VERTICES[0].edgeIndex == [0, 2];
    assert ONE_FACE_VERTICES[1].edgeIndex == [Not(0), 1];
    assert ONE_FACE_VERTICES[2].edgeIndex == [Not(1), Not(2)];
  }

  /** The exception occurs for a single triangle: its vertex 1 lists edge (0, 1) backwards. */
  lemma FirstVertexCanFail()
    ensures Linked(ONE_FACE, ONE_FACE_EDGES) && TracesTriangles(ONE_FACE, ONE_FACE_EDGES)
    ensures VerticesAgree(ONE_FACE, ONE_FACE_EDGES, ONE_FACE_VERTICES)
    ensures Not(0) in ONE_FACE_VERTICES[1].edgeIndex && ONE_FACE_EDGES[Index(Not(0))].v0 != 1
  {
    OneFaceIsLinked();
    OneFaceVerticesAgree();
    assert OwnsItsEdges(ONE_FACE, ONE_FACE_EDGES, 0);
    assert ListedSides(ONE_FACE_EDGES, ONE_FACE[0].edgeIndex) == Sides(ONE_FACE[0].vertexIndex);
    assert ONE_FACE_VERTICES[1].edgeIndex[0] == Not(0);
  }

  // ---- relabelling edges

  /** How a table of new signed indices rewrites a reference. */
  function Renamed(newIndex: seq<int>, r: int): int
    requires Index(r) < |newIndex|
  {
    if r < 0 then Not(newIndex[Not(r)]) else newIndex[r]
  }

  function RenamedTriple(newIndex: seq<int>, t: Triple): Triple
    requires Index(t.a) < |newIndex| && Index(t.b) < |newIndex| && Index(t.c) < |newIndex|
  {
    Triple(Renamed(newIndex, t.a), Renamed(newIndex, t.b), Renamed(newIndex, t.c))
  }

  /** What a renaming does to one reference: direction and occupant stay. */
  ghost predicate RenamesRef(newIndex: seq<int>, before: seq<Edge>, after: seq<Edge>, r: int)
    requires |newIndex| == |before| && IsRef(before, r)
  {
    var n := Renamed(newIndex, r);
    && IsRef(after, n)
    && Direction(after, n) == Direction(before, r)
    && (SideFace(before, r) != NONE ==> SideFace(after, n) == SideFace(before, r))
  }

  /** The renaming turns s into r, and r is occupied only if s was. */
  ghost predicate ComesFrom(newIndex: seq<int>, before: seq<Edge>, after: seq<Edge>, r: int, s: int)
    requires |newIndex| == |before| && IsRef(after, r)
  {
    && IsRef(before, s) && Renamed(newIndex, s) == r
    && (SideFace(after, r) != NONE ==> SideFace(before, s) != NONE)
  }

  /** No two occupied sides of one face become the same side. */
  ghost predicate KeepsApart(newIndex: seq<int>, before: seq<Edge>, r: int, s: int)
    requires |newIndex| == |before| && IsRef(before, r) && IsRef(before, s)
  {
    SideFace(before, r) != NONE && SideFace(before, s) != NONE && Renamed(newIndex, r) == Renamed(newIndex, s) ==> r == s
  }

  /** The renaming is a bijection between occupied sides that keeps direction and occupant. */
  ghost predicate Relabels(newIndex: seq<int>, before: seq<Edge>, after: seq<Edge>) {
    && |newIndex| == |before|
    && (forall r :: IsRef(before, r) ==> RenamesRef(newIndex, before, after, r))
    && (forall r, s :: IsRef(before, r) && IsRef(before, s) ==> KeepsApart(newIndex, before, r, s))
    && forall r :: IsRef(after, r) ==> exists s :: ComesFrom(newIndex, before, after, r, s)
  }

  ghost predicate FacesRenamed(newIndex: seq<int>, before: seq<Edge>, faces: seq<Face>, faces': seq<Face>)
    requires |newIndex| == |before| && Linked(faces, before)
  {
    && |faces'| == |faces|
    && forall f :: 0 <= f < |faces| ==>
      && faces'[f].vertexIndex == faces[f].vertexIndex
      && OwnsItsEdges(faces, before, f)
      && faces'[f].edgeIndex == RenamedTriple(newIndex, faces[f].edgeIndex)
  }

  /** Renaming edges consistently keeps the mesh linked, and every face keeps its directed sides in order. */
  lemma RelabellingKeepsLinked(
    newIndex: seq<int>, before: seq<Edge>, after: seq<Edge>, faces: seq<Face>, faces': seq<Face>)
    requires Relabels(newIndex, before, after) && Linked(faces, before)
    requires FacesRenamed(newIndex, before, faces, faces')
    ensures Linked(faces', after)
    ensures forall f :: 0 <= f < |faces| ==>
      && OwnsItsEdges(faces, before, f) && OwnsItsEdges(faces', after, f)
      && Direction(after, faces'[f].edgeIndex.a) == Direction(before, faces[f].edgeIndex.a)
      && Direction(after, faces'[f].edgeIndex.b) == Direction(before, faces[f].edgeIndex.b)
      && Direction(after, faces'[f].edgeIndex.c) == Direction(before, faces[f].edgeIndex.c)
  {
    forall f | 0 <= f < |faces|
      ensures OwnsItsEdges(faces', after, f)
      ensures Direction(after, faces'[f].edgeIndex.a) == Direction(before, faces[f].edgeIndex.a)
      ensures Direction(after, faces'[f].edgeIndex.b) == Direction(before, faces[f].edgeIndex.b)
      ensures Direction(after, faces'[f].edgeIndex.c) == Direction(before, faces[f].edgeIndex.c)
    {
      assert OwnsItsEdges(faces, before, f);
      var t := faces[f].edgeIndex;
      assert RenamesRef(newIndex, before, after, t.a) && RenamesRef(newIndex, before, after, t.b) && RenamesRef(newIndex, before, after, t.c);
      assert KeepsApart(newIndex, before, t.a, t.b) && KeepsApart(newIndex, before, t.a, t.c) && KeepsApart(newIndex, before, t.b, t.c);
    }
    forall r | IsRef(after, r) ensures SideIsListed(faces', after, r) {
      if SideFace(after, r) != NONE {
        var s :| ComesFrom(newIndex, before, after, r, s);
        assert RenamesRef(newIndex, before, after, s);
        assert SideIsListed(faces, before, s);
        assert OwnsItsEdges(faces, before, SideFace(before, s));
      }
    }
  }
}
