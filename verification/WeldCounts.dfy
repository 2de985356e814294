/** After welding, too, no more edges are left open than the triangles force. */
module WeldCounts {
  import opened Mesh
  import opened Pairing
  import opened SetSizes
  import opened MeshCounts
  import opened WeldEdges

  /** Occupied sides of direction d whose edge has no other face. */
  ghost function OpenSides(edges: seq<Edge>, d: Side): set<int> {
    set r | -|edges| <= r < |edges| && SideFace(edges, r) != NONE && Direction(edges, r) == d
      && SideFace(edges, Not(r)) == NONE
  }

  /** Occupied sides of direction d whose edge has two faces. */
  ghost function PairedSides(edges: seq<Edge>, d: Side): set<int> {
    set r | -|edges| <= r < |edges| && SideFace(edges, r) != NONE && Direction(edges, r) == d
      && SideFace(edges, Not(r)) != NONE
  }

  lemma SidesOpenOrPaired(faces: seq<Face>, edges: seq<Edge>, d: Side)
    requires Linked(faces, edges)
    ensures SidesAlong(edges, |faces|, d) == OpenSides(edges, d) + PairedSides(edges, d)
    ensures OpenSides(edges, d) !! PairedSides(edges, d)
  {
    LinkedOccupants(faces, edges);
  }

  lemma PairedBothWays(edges: seq<Edge>, d: Side)
    ensures Complements(PairedSides(edges, d)) == PairedSides(edges, Flip(d))
  {
    forall r | r in PairedSides(edges, d) ensures Not(r) in PairedSides(edges, Flip(d)) {
    }
    forall r | r in PairedSides(edges, Flip(d)) ensures r in Complements(PairedSides(edges, d)) {
      assert Not(r) in PairedSides(edges, d) && Not(Not(r)) == r;
    }
  }

  lemma RunsSplit(faces: seq<Face>, edges: seq<Edge>, d: Side)
    requires Linked(faces, edges) && TracesTriangles(faces, edges)
    ensures |OpenSides(edges, d)| + |PairedSides(edges, d)| == Runs(faces, |faces|, d)
    ensures |PairedSides(edges, Flip(d))| == |PairedSides(edges, d)|
  {
    RunsAreSides(faces, edges, d);
    SidesOpenOrPaired(faces, edges, d);
    DisjointSize(OpenSides(edges, d), PairedSides(edges, d));
    PairedBothWays(edges, d);
    ComplementSize(PairedSides(edges, d));
  }

  /** Two open sides of opposite directions on different edges would be mates. */
  lemma OpenSidesExclude(edges: seq<Edge>, d: Side, r: int, s: int)
    requires NoMatesLeft(edges) && r in OpenSides(edges, d) && s in OpenSides(edges, Flip(d))
    ensures Index(r) == Index(s)
  {
    var e, g := Index(r), Index(s);
    assert OpenDirection(edges[e]) == d && OpenDirection(edges[g]) == Flip(d);
    assert edges[e].Boundary() && edges[g].Boundary();
  }

  /** Welding is optimal: between two different vertices the open sides left are exactly the
      surplus of one direction over the other. */
  lemma WeldedOpenSidesAreTheSurplus(faces: seq<Face>, edges: seq<Edge>, a: int, b: int)
    requires Linked(faces, edges) && TracesTriangles(faces, edges) && NoMatesLeft(edges) && a != b
    ensures var forward, backward := Runs(faces, |faces|, (a, b)), Runs(faces, |faces|, (b, a));
      |OpenSides(edges, (a, b))| + |OpenSides(edges, (b, a))|
        == if forward >= backward then forward - backward else backward - forward
  {
    var fwd, bwd := OpenSides(edges, (a, b)), OpenSides(edges, (b, a));
    RunsSplit(faces, edges, (a, b));
    RunsSplit(faces, edges, (b, a));
    if fwd != {} && bwd != {} {
      var r := Pick(fwd);
      var s := Pick(bwd);
      OpenSidesExclude(edges, (a, b), r, s);
    }
  }

  /** A set of references closed under complement is twice its forward half. */
  lemma ClosedIsEven(s: set<int>)
    requires Complements(s) == s
    ensures |s| % 2 == 0
  {
    var front := set r | r in s && r >= 0;
    forall r | r in s ensures r in front + Complements(front) {
      assert Not(r) in Complements(s);
      if r < 0 {
        assert Not(r) in front && Not(Not(r)) == r;
      }
    }
    assert Complements(front) <= Complements(s);
    assert s == front + Complements(front);
    DisjointSize(front, Complements(front));
    ComplementSize(front);
  }

  lemma AtMostOneOpenSelfSide(edges: seq<Edge>, a: int)
    requires NoMatesLeft(edges)
    ensures |OpenSides(edges, (a, a))| <= 1
  {
    var open := OpenSides(edges, (a, a));
    if open != {} {
      var r := Pick(open);
      forall s | s in open ensures s == r {
        OpenSidesExclude(edges, (a, a), r, s);
      }
      assert open == {r};
    }
  }

  lemma PairedSelfSidesAreEven(edges: seq<Edge>, a: int)
    ensures |PairedSides(edges, (a, a))| % 2 == 0
  {
    PairedBothWays(edges, (a, a));
    ClosedIsEven(PairedSides(edges, (a, a)));
  }

  lemma ParityRemainder(open: int, paired: int, all: int)
    requires open + paired == all && 0 <= open <= 1 && paired % 2 == 0
    ensures open == all % 2
  {
  }

  /** Sides from a vertex to itself pair up as well, so at most one is left. */
  lemma WeldedSelfSides(faces: seq<Face>, edges: seq<Edge>, a: int)
    requires Linked(faces, edges) && TracesTriangles(faces, edges) && NoMatesLeft(edges)
    ensures |OpenSides(edges, (a, a))| == Runs(faces, |faces|, (a, a)) % 2
  {
    var open, paired := |OpenSides(edges, (a, a))|, |PairedSides(edges, (a, a))|;
    assert paired % 2 == 0 by { PairedSelfSidesAreEven(edges, a); }
    assert open <= 1 by { AtMostOneOpenSelfSide(edges, a); }
    assert open + paired == Runs(faces, |faces|, (a, a)) by { RunsSplit(faces, edges, (a, a)); }
    ParityRemainder(open, paired, Runs(faces, |faces|, (a, a)));
  }
}
