/** Sizes of finite sets. */
module SetSizes {
  import opened Mesh

  ghost function Complements(s: set<int>): set<int> {
    set r | r in s :: Not(r)
  }

  lemma Pick<T>(s: set<T>) returns (x: T)
    requires s != {}
    ensures x in s
  {
    x :| x in s;
  }

  lemma {:induction false} ComplementSize(s: set<int>)
    ensures |Complements(s)| == |s|
  {
    if s != {} {
      var x := Pick(s);
      ComplementSize(s - {x});
      assert Complements(s) == Complements(s - {x}) + {Not(x)};
      assert Not(x) !in Complements(s - {x});
    }
  }

  lemma DisjointSize<T>(s: set<T>, t: set<T>)
    requires s !! t
    ensures |s + t| == |s| + |t|
  {
  }

  lemma DifferenceSize<T>(s: set<T>, t: set<T>)
    requires t <= s
    ensures |s - t| == |s| - |t|
  {
    assert (s - t) + t == s;
  }

  lemma BothOrOneSide<T>(s: set<T>, t: set<T>)
    ensures |s| + |t| == 2 * |s * t| + |(s - t) + (t - s)|
  {
    DifferenceSize(s, s * t);
    DifferenceSize(t, s * t);
    assert s - s * t == s - t && t - s * t == t - s;
    DisjointSize(s - t, t - s);
  }
}

/** How many edges a linked mesh has, in terms of its triangles alone. */
module MeshCounts {
  import opened Mesh
  import opened Pairing
  import opened Adjacency
  import opened SetSizes

  /** How often the first k triangles run the directed side d. */
  ghost function Runs(faces: seq<Face>, k: nat, d: Side): nat
    requires k <= |faces|
  {
    if k == 0 then 0 else Runs(faces, k - 1, d) + Sides(faces[k - 1].vertexIndex)[d]
  }

  /** The references to sides of direction d that belong to the first k faces. */
  ghost function SidesAlong(edges: seq<Edge>, k: int, d: Side): set<int> {
    set r | -|edges| <= r < |edges| && 0 <= SideFace(edges, r) < k && Direction(edges, r) == d
  }

  /** The references to sides that belong to the first k faces. */
  ghost function SidesOwned(edges: seq<Edge>, k: int): set<int> {
    set r | -|edges| <= r < |edges| && 0 <= SideFace(edges, r) < k
  }

  /** The references of t whose direction is d. */
  ghost function ListedAlong(edges: seq<Edge>, t: Triple, d: Side): set<int>
    requires IsRef(edges, t.a) && IsRef(edges, t.b) && IsRef(edges, t.c)
  {
    (if Direction(edges, t.a) == d then {t.a} else {})
    + (if Direction(edges, t.b) == d then {t.b} else {})
    + (if Direction(edges, t.c) == d then {t.c} else {})
  }

  lemma CountListed(edges: seq<Edge>, t: Triple, d: Side)
    requires t.AllDifferent() && IsRef(edges, t.a) && IsRef(edges, t.b) && IsRef(edges, t.c)
    ensures |ListedAlong(edges, t, d)| == ListedSides(edges, t)[d]
  {
    var x, y, z := Direction(edges, t.a), Direction(edges, t.b), Direction(edges, t.c);
    assert multiset{x, y, z}[d] == (if x == d then 1 else 0) + (if y == d then 1 else 0) + (if z == d then 1 else 0);
  }

  lemma SidesAlongGrow(faces: seq<Face>, edges: seq<Edge>, k: nat, d: Side)
    requires Linked(faces, edges) && 1 <= k <= |faces| && OwnsItsEdges(faces, edges, k - 1)
    ensures SidesAlong(edges, k, d) == SidesAlong(edges, k - 1, d) + ListedAlong(edges, faces[k - 1].edgeIndex, d)
    ensures SidesAlong(edges, k - 1, d) !! ListedAlong(edges, faces[k - 1].edgeIndex, d)
  {
    var mine := ListedAlong(edges, faces[k - 1].edgeIndex, d);
    forall r ensures r in SidesAlong(edges, k, d) <==> r in SidesAlong(edges, k - 1, d) || r in mine {
      if -|edges| <= r < |edges| {
        assert IsRef(edges, r) && SideIsListed(faces, edges, r);
      }
    }
  }

  /** Face k - 1 adds as many references as its triangle runs d. */
  ghost predicate FaceAdds(faces: seq<Face>, edges: seq<Edge>, k: int, d: Side) {
    1 <= k <= |faces| &&
    |SidesAlong(edges, k, d)| == |SidesAlong(edges, k - 1, d)| + Sides(faces[k - 1].vertexIndex)[d]
  }

  lemma EveryFaceAdds(faces: seq<Face>, edges: seq<Edge>, k: nat, d: Side)
    requires Linked(faces, edges) && TracesTriangles(faces, edges) && 1 <= k <= |faces|
    ensures FaceAdds(faces, edges, k, d)
  {
    assert OwnsItsEdges(faces, edges, k - 1);
    var t := faces[k - 1].edgeIndex;
    CountListed(edges, t, d);
    SidesAlongGrow(faces, edges, k, d);
    DisjointSize(SidesAlong(edges, k - 1, d), ListedAlong(edges, t, d));
  }

  lemma NoSides(edges: seq<Edge>, d: Side)
    ensures SidesAlong(edges, 0, d) == {}
  {
  }

  lemma {:induction false} SumOfFaces(faces: seq<Face>, edges: seq<Edge>, k: nat, d: Side)
    requires k <= |faces| && forall j :: 1 <= j <= k ==> FaceAdds(faces, edges, j, d)
    ensures |SidesAlong(edges, k, d)| == Runs(faces, k, d)
    decreases k
  {
    if k == 0 {
      NoSides(edges, d);
    } else {
      SumOfFaces(faces, edges, k - 1, d);
      assert FaceAdds(faces, edges, k, d);
    }
  }

  lemma RunsAreSides(faces: seq<Face>, edges: seq<Edge>, d: Side)
    requires Linked(faces, edges) && TracesTriangles(faces, edges)
    ensures |SidesAlong(edges, |faces|, d)| == Runs(faces, |faces|, d)
  {
    forall k | 1 <= k <= |faces| ensures FaceAdds(faces, edges, k, d) {
      EveryFaceAdds(faces, edges, k, d);
    }
    SumOfFaces(faces, edges, |faces|, d);
  }

  lemma SidesOwnedGrow(faces: seq<Face>, edges: seq<Edge>, k: nat)
    requires Linked(faces, edges) && k < |faces| && OwnsItsEdges(faces, edges, k)
    ensures var t := faces[k].edgeIndex;
      SidesOwned(edges, k + 1) == SidesOwned(edges, k) + {t.a, t.b, t.c} && SidesOwned(edges, k) !! {t.a, t.b, t.c}
  {
    var t := faces[k].edgeIndex;
    forall r ensures r in SidesOwned(edges, k + 1) <==> r in SidesOwned(edges, k) || r in {t.a, t.b, t.c} {
      if -|edges| <= r < |edges| {
        assert IsRef(edges, r) && SideIsListed(faces, edges, r);
      }
    }
  }

  lemma {:induction false} ThreeSidesPerFace(faces: seq<Face>, edges: seq<Edge>, k: nat)
    requires Linked(faces, edges) && k <= |faces|
    ensures |SidesOwned(edges, k)| == 3 * k
  {
    if k == 0 {
      assert SidesOwned(edges, 0) == {};
    } else {
      ThreeSidesPerFace(faces, edges, k - 1);
      assert OwnsItsEdges(faces, edges, k - 1);
      var t := faces[k - 1].edgeIndex;
      SidesOwnedGrow(faces, edges, k - 1);
      assert |{t.a, t.b, t.c}| == 3;
      DisjointSize(SidesOwned(edges, k - 1), {t.a, t.b, t.c});
    }
  }

  // ---- edges of one vertex pair

  /** The edges between a and b with a face on side 0, and with a face on side 1. */
  ghost function ForwardEdges(edges: seq<Edge>, a: int, b: int): set<int> {
    set e | 0 <= e < |edges| && edges[e].v0 == a && edges[e].v1 == b && edges[e].f0 != NONE
  }

  ghost function BackwardEdges(edges: seq<Edge>, a: int, b: int): set<int> {
    set e | 0 <= e < |edges| && edges[e].v0 == a && edges[e].v1 == b && edges[e].f1 != NONE
  }

  ghost function OpenEdges(edges: seq<Edge>, a: int, b: int): set<int> {
    set e | 0 <= e < |edges| && edges[e].v0 == a && edges[e].v1 == b && edges[e].Boundary()
  }

  /** An occupant is a face number or the marker for none. */
  ghost predicate OccupantsInRange(faces: seq<Face>, edges: seq<Edge>) {
    forall r :: -|edges| <= r < |edges| ==> (SideFace(edges, r) != NONE <==> 0 <= SideFace(edges, r) < |faces|)
  }

  lemma LinkedOccupants(faces: seq<Face>, edges: seq<Edge>)
    requires Linked(faces, edges)
    ensures OccupantsInRange(faces, edges)
  {
    forall r | -|edges| <= r < |edges| ensures SideFace(edges, r) != NONE <==> 0 <= SideFace(edges, r) < |faces| {
      assert IsRef(edges, r) && SideIsListed(faces, edges, r);
    }
  }

  ghost predicate EdgesAscending(edges: seq<Edge>) {
    forall e :: 0 <= e < |edges| ==> edges[e].v0 <= edges[e].v1
  }

  lemma ForwardSides(faces: seq<Face>, edges: seq<Edge>, a: int, b: int)
    requires OccupantsInRange(faces, edges) && EdgesAscending(edges) && a < b
    ensures ForwardEdges(edges, a, b) == SidesAlong(edges, |faces|, (a, b))
  {
    forall r ensures r in ForwardEdges(edges, a, b) <==> r in SidesAlong(edges, |faces|, (a, b)) {
    }
  }

  lemma BackwardSides(faces: seq<Face>, edges: seq<Edge>, a: int, b: int)
    requires OccupantsInRange(faces, edges) && EdgesAscending(edges) && a <= b
    requires forall e :: 0 <= e < |edges| ==> SelfEdgeOpen(edges[e])
    ensures Complements(BackwardEdges(edges, a, b)) == SidesAlong(edges, |faces|, (b, a))
  {
    var bwd, sides := BackwardEdges(edges, a, b), SidesAlong(edges, |faces|, (b, a));
    forall r | r in sides ensures r in Complements(bwd) {
      assert SelfEdgeOpen(edges[Index(r)]);
      assert Not(r) in bwd;
    }
    forall e | e in bwd ensures Not(e) in sides {
      assert SideFace(edges, Not(e)) == edges[e].f1;
    }
  }

  lemma ForwardCount(faces: seq<Face>, edges: seq<Edge>, a: int, b: int)
    requires Linked(faces, edges) && TracesTriangles(faces, edges) && GoodEdges(edges) && a < b
    ensures |ForwardEdges(edges, a, b)| == Runs(faces, |faces|, (a, b))
  {
    RunsAreSides(faces, edges, (a, b));
    LinkedOccupants(faces, edges);
    ForwardSides(faces, edges, a, b);
  }

  lemma BackwardCount(faces: seq<Face>, edges: seq<Edge>, a: int, b: int)
    requires Linked(faces, edges) && TracesTriangles(faces, edges) && GoodEdges(edges) && a <= b
    ensures |BackwardEdges(edges, a, b)| == Runs(faces, |faces|, (b, a))
  {
    RunsAreSides(faces, edges, (b, a));
    LinkedOccupants(faces, edges);
    BackwardSides(faces, edges, a, b);
    ComplementSize(BackwardEdges(edges, a, b));
  }

  /** Of the two groups of edges between a and b one includes the other. */
  lemma OneGroupIncludesTheOther(edges: seq<Edge>, a: int, b: int)
    requires GoodEdges(edges)
    ensures var fwd, bwd, open := ForwardEdges(edges, a, b), BackwardEdges(edges, a, b), OpenEdges(edges, a, b);
      (bwd <= fwd && open == fwd - bwd) || (fwd <= bwd && open == bwd - fwd)
  {
    var fwd, bwd, open := ForwardEdges(edges, a, b), BackwardEdges(edges, a, b), OpenEdges(edges, a, b);
    assert open == (fwd - bwd) + (bwd - fwd) by {
      assert forall e :: 0 <= e < |edges| ==> HasFace(edges[e]);
    }
    if e :| e in fwd - bwd {
      forall g | g in bwd ensures g in fwd {
        assert NotMates(edges[e], edges[g]);
      }
    }
  }

  /** Pairing is optimal: between two vertices the boundary edges left are exactly the
      surplus of one direction over the other. */
  lemma OpenEdgesAreTheSurplus(faces: seq<Face>, edges: seq<Edge>, a: int, b: int)
    requires Linked(faces, edges) && TracesTriangles(faces, edges) && GoodEdges(edges) && a < b
    ensures var forward, backward := Runs(faces, |faces|, (a, b)), Runs(faces, |faces|, (b, a));
      |OpenEdges(edges, a, b)| == if forward >= backward then forward - backward else backward - forward
  {
    ForwardCount(faces, edges, a, b);
    BackwardCount(faces, edges, a, b);
    var fwd, bwd := ForwardEdges(edges, a, b), BackwardEdges(edges, a, b);
    OneGroupIncludesTheOther(edges, a, b);
    if bwd <= fwd {
      DifferenceSize(fwd, bwd);
    }
    if fwd <= bwd {
      DifferenceSize(bwd, fwd);
    }
  }

  /** A side from a vertex to itself always becomes a boundary edge of its own. */
  lemma SelfEdgesStayOpen(faces: seq<Face>, edges: seq<Edge>, a: int)
    requires Linked(faces, edges) && TracesTriangles(faces, edges) && GoodEdges(edges)
    ensures |OpenEdges(edges, a, a)| == Runs(faces, |faces|, (a, a))
  {
    BackwardCount(faces, edges, a, a);
    forall e | 0 <= e < |edges| && edges[e].v0 == edges[e].v1 ensures edges[e].f0 == NONE && edges[e].f1 != NONE {
      assert SelfEdgeOpen(edges[e]) && HasFace(edges[e]);
    }
    assert OpenEdges(edges, a, a) == BackwardEdges(edges, a, a);
  }

  // ---- the whole mesh

  ghost function InteriorEdges(edges: seq<Edge>): set<int> {
    set e | 0 <= e < |edges| && !edges[e].Boundary()
  }

  ghost function BoundaryEdges(edges: seq<Edge>): set<int> {
    set e | 0 <= e < |edges| && edges[e].Boundary()
  }

  ghost function OnSide0(edges: seq<Edge>): set<int> {
    set e | 0 <= e < |edges| && edges[e].f0 != NONE
  }

  ghost function OnSide1(edges: seq<Edge>): set<int> {
    set e | 0 <= e < |edges| && edges[e].f1 != NONE
  }

  lemma OwnedSplits(faces: seq<Face>, edges: seq<Edge>)
    requires OccupantsInRange(faces, edges)
    ensures SidesOwned(edges, |faces|) == OnSide0(edges) + Complements(OnSide1(edges))
    ensures OnSide0(edges) !! Complements(OnSide1(edges))
  {
    forall r | r in SidesOwned(edges, |faces|) ensures r in OnSide0(edges) + Complements(OnSide1(edges)) {
      if r < 0 {
        assert Not(r) in OnSide1(edges);
      }
    }
    forall e | e in OnSide1(edges) ensures Not(e) in SidesOwned(edges, |faces|) {
      assert SideFace(edges, Not(e)) == edges[e].f1;
    }
  }

  /** Three sides per face: two for each interior edge and one for each boundary edge. */
  lemma SidesPerEdge(faces: seq<Face>, edges: seq<Edge>)
    requires Linked(faces, edges) && forall e :: 0 <= e < |edges| ==> HasFace(edges[e])
    ensures 3 * |faces| == 2 * |InteriorEdges(edges)| + |BoundaryEdges(edges)|
  {
    var side0, side1 := OnSide0(edges), OnSide1(edges);
    ThreeSidesPerFace(faces, edges, |faces|);
    LinkedOccupants(faces, edges);
    OwnedSplits(faces, edges);
    DisjointSize(side0, Complements(side1));
    ComplementSize(side1);
    assert InteriorEdges(edges) == side0 * side1;
    assert BoundaryEdges(edges) == (side0 - side1) + (side1 - side0);
    BothOrOneSide(side0, side1);
  }
}
