/** The inner loop of computeAdjacency: collapsing the half-edges between one
    pair of vertices into edges. */
module Pairing {
  import opened Mesh

  type Side = (int, int)

  /** For each face the directed sides not yet turned into edges. */
  type Remaining = seq<multiset<Side>>

  // ---- partially assigned faces

  /** A slot of face f is free or refers to a side owned by f. */
  predicate SlotOk(edges: seq<Edge>, r: int, f: int) {
    r == NONE || (IsRef(edges, r) && SideFace(edges, r) == f)
  }

  /** Slots fill from the front, with different sides of f. */
  predicate SlotsOk(t: Triple, edges: seq<Edge>, f: int) {
    && SlotOk(edges, t.a, f) && SlotOk(edges, t.b, f) && SlotOk(edges, t.c, f)
    && (t.a == NONE ==> t.b == NONE) && (t.b == NONE ==> t.c == NONE)
    && (t.b != NONE ==> t.a != t.b) && (t.c != NONE ==> t.a != t.c && t.b != t.c)
  }

  /** The directed edges listed so far. */
  function SidesSoFar(t: Triple, edges: seq<Edge>, f: int): multiset<Side>
    requires SlotsOk(t, edges, f)
  {
    if t.a == NONE then multiset{}
    else if t.b == NONE then multiset{Direction(edges, t.a)}
    else if t.c == NONE then multiset{Direction(edges, t.a), Direction(edges, t.b)}
    else multiset{Direction(edges, t.a), Direction(edges, t.b), Direction(edges, t.c)}
  }

  /** The listed and the remaining sides make up the triangle. */
  ghost predicate PartialFace(face: Face, edges: seq<Edge>, remaining: multiset<Side>, f: int) {
    && SlotsOk(face.edgeIndex, edges, f)
    && SidesSoFar(face.edgeIndex, edges, f) + remaining == Sides(face.vertexIndex)
  }

  ghost predicate Partial(faces: seq<Face>, edges: seq<Edge>, rem: Remaining) {
    && |rem| == |faces| <= MAX_INT
    && |edges| <= MAX_INT
    && (forall f :: 0 <= f < |faces| ==> PartialFace(faces[f], edges, rem[f], f))
    && forall r :: IsRef(edges, r) ==> SideIsListed(faces, edges, r)
  }

  /** assignEdgeIndex: the next unassigned slot receives the reference. */
  function Assigned(t: Triple, r: int): Triple {
    if t.a == NONE then t.(a := r) else if t.b == NONE then t.(b := r) else t.(c := r)
  }

  method AssignEdgeIndex(face: Face, e: int) returns (face': Face)
    requires exists i :: 0 <= i < 3 && face.edgeIndex.At(i) == NONE
    ensures face' == face.(edgeIndex := Assigned(face.edgeIndex, e))
  {
    for i := 0 to 3
      invariant forall k :: 0 <= k < i ==> face.edgeIndex.At(k) != NONE
    {
      if face.edgeIndex.At(i) == NONE {
        assert i == 0 || i == 1 || i == 2;
        assert i > 0 ==> face.edgeIndex.At(0) != NONE;
        assert i > 1 ==> face.edgeIndex.At(1) != NONE;
        return face.(edgeIndex := face.edgeIndex.With(i, e));
      }
    }
  }

  function Occupied(edges: seq<Edge>, r: int, f: int): (edges': seq<Edge>)
    requires IsRef(edges, r)
    ensures |edges'| == |edges|
  {
    if r >= 0 then edges[r := edges[r].(f0 := f)] else edges[Not(r) := edges[Not(r)].(f1 := f)]
  }

  /** Every reference valid before still names the same directed edge, and f still owns what it owned. */
  ghost predicate SameFor(edges: seq<Edge>, edges': seq<Edge>, f: int) {
    forall s :: IsRef(edges, s) ==>
      && IsRef(edges', s) && Direction(edges', s) == Direction(edges, s)
      && (SideFace(edges, s) == f ==> SideFace(edges', s) == f)
  }

  lemma SameForKeepsPartialFace(face: Face, edges: seq<Edge>, edges': seq<Edge>, remaining: multiset<Side>, f: int)
    requires PartialFace(face, edges, remaining, f) && SameFor(edges, edges', f)
    ensures PartialFace(face, edges', remaining, f)
  {
    assert SidesSoFar(face.edgeIndex, edges', f) == SidesSoFar(face.edgeIndex, edges, f);
  }

  /** While a side of a face remains, one of its slots is free. */
  lemma SlotIsFree(face: Face, edges: seq<Edge>, remaining: multiset<Side>, f: int, d: Side)
    requires PartialFace(face, edges, remaining, f) && d in remaining
    ensures face.edgeIndex.c == NONE
  {
    assert |remaining| >= 1;
    assert |Sides(face.vertexIndex)| == 3;
    assert |SidesSoFar(face.edgeIndex, edges, f)| + |remaining| == 3;
  }

  lemma MoveOne(listed: multiset<Side>, remaining: multiset<Side>, all: multiset<Side>, d: Side)
    requires listed + remaining == all && d in remaining
    ensures (listed + multiset{d}) + (remaining - multiset{d}) == all
  {
  }

  lemma AssignAddsSide(t: Triple, edges: seq<Edge>, f: int, r: int)
    requires SlotsOk(t, edges, f) && t.c == NONE && r != NONE && IsRef(edges, r) && SideFace(edges, r) == f
    requires !t.Contains(r)
    ensures SlotsOk(Assigned(t, r), edges, f)
    ensures SidesSoFar(Assigned(t, r), edges, f) == SidesSoFar(t, edges, f) + multiset{Direction(edges, r)}
  {
  }

  /** A free slot takes a side f has just come to own, and that side is no longer remaining. */
  lemma AssignKeepsPartialFace(
    face: Face, edges: seq<Edge>, edges': seq<Edge>, remaining: multiset<Side>, f: int, r: int)
    requires PartialFace(face, edges, remaining, f) && SameFor(edges, edges', f)
    requires r != NONE && IsRef(edges, r) && SideFace(edges, r) != f && SideFace(edges', r) == f
    requires Direction(edges, r) in remaining
    ensures PartialFace(face.(edgeIndex := Assigned(face.edgeIndex, r)), edges',
              remaining - multiset{Direction(edges, r)}, f)
  {
    var d := Direction(edges, r);
    SlotIsFree(face, edges, remaining, f, d);
    SameForKeepsPartialFace(face, edges, edges', remaining, f);
    AssignAddsSide(face.edgeIndex, edges', f, r);
    MoveOne(SidesSoFar(face.edgeIndex, edges', f), remaining, Sides(face.vertexIndex), d);
  }

  lemma OtherFacesStayPartial(faces: seq<Face>, edges: seq<Edge>, edges': seq<Edge>, rem: Remaining, f: int)
    requires |rem| == |faces|
    requires forall g :: 0 <= g < |faces| && g != f ==> PartialFace(faces[g], edges, rem[g], g)
    requires forall g :: 0 <= g < |faces| && g != f ==> SameFor(edges, edges', g)
    ensures forall g :: 0 <= g < |faces| && g != f ==> PartialFace(faces[g], edges', rem[g], g)
  {
    forall g | 0 <= g < |faces| && g != f ensures PartialFace(faces[g], edges', rem[g], g) {
      SameForKeepsPartialFace(faces[g], edges, edges', rem[g], g);
    }
  }

  function NewEdge(a: int, b: int): Edge {
    Edge(a, b, NONE, NONE)
  }

  lemma NewEdgeSame(edges: seq<Edge>, a: int, b: int)
    ensures forall g :: g >= 0 ==> SameFor(edges, edges + [NewEdge(a, b)], g)
  {
  }

  lemma NewEdgeStaysListed(faces: seq<Face>, edges: seq<Edge>, a: int, b: int)
    requires forall r :: IsRef(edges, r) ==> SideIsListed(faces, edges, r)
    ensures forall r :: IsRef(edges + [NewEdge(a, b)], r) ==> SideIsListed(faces, edges + [NewEdge(a, b)], r)
  {
    forall r | IsRef(edges + [NewEdge(a, b)], r) ensures SideIsListed(faces, edges + [NewEdge(a, b)], r) {
      if IsRef(edges, r) {
        assert SideIsListed(faces, edges, r);
      }
    }
  }

  /** Growing the edge array with an edge no face owns yet changes nothing for the faces. */
  lemma NewEdgeKeepsPartial(faces: seq<Face>, edges: seq<Edge>, rem: Remaining, a: int, b: int)
    requires Partial(faces, edges, rem) && |edges| < MAX_INT
    ensures Partial(faces, edges + [NewEdge(a, b)], rem)
  {
    NewEdgeSame(edges, a, b);
    OtherFacesStayPartial(faces, edges, edges + [NewEdge(a, b)], rem, -1);
    NewEdgeStaysListed(faces, edges, a, b);
  }

  lemma OccupySame(edges: seq<Edge>, r: int, f: int)
    requires IsRef(edges, r) && SideFace(edges, r) == NONE && f >= 0
    ensures SideFace(Occupied(edges, r, f), r) == f
    ensures forall g :: g >= 0 ==> SameFor(edges, Occupied(edges, r, f), g)
    ensures forall s :: IsRef(edges, s) && s != r ==> SideFace(Occupied(edges, r, f), s) == SideFace(edges, s)
  {
  }

  lemma OccupyStaysListed(faces: seq<Face>, edges: seq<Edge>, r: int, f: int)
    requires forall s :: IsRef(edges, s) ==> SideIsListed(faces, edges, s)
    requires IsRef(edges, r) && SideFace(edges, r) == NONE && 0 <= f < |faces|
    requires SlotsOk(faces[f].edgeIndex, edges, f) && faces[f].edgeIndex.c == NONE && |edges| <= MAX_INT
    ensures var faces' := faces[f := faces[f].(edgeIndex := Assigned(faces[f].edgeIndex, r))];
      var edges' := Occupied(edges, r, f);
      forall s :: IsRef(edges', s) ==> SideIsListed(faces', edges', s)
  {
    OccupySame(edges, r, f);
    var faces' := faces[f := faces[f].(edgeIndex := Assigned(faces[f].edgeIndex, r))];
    var edges' := Occupied(edges, r, f);
    forall s | IsRef(edges', s) ensures SideIsListed(faces', edges', s) {
      assert SideIsListed(faces, edges, s);
    }
  }

  /** Giving a free side to a face that still needs its direction keeps the bookkeeping. */
  lemma OccupyKeepsPartial(faces: seq<Face>, edges: seq<Edge>, rem: Remaining, r: int, f: int)
    requires Partial(faces, edges, rem) && IsRef(edges, r) && SideFace(edges, r) == NONE
    requires 0 <= f < |faces| && Direction(edges, r) in rem[f]
    ensures faces[f].edgeIndex.c == NONE
    ensures Partial(faces[f := faces[f].(edgeIndex := Assigned(faces[f].edgeIndex, r))], Occupied(edges, r, f),
              rem[f := rem[f] - multiset{Direction(edges, r)}])
  {
    var edges' := Occupied(edges, r, f);
    OccupySame(edges, r, f);
    SlotIsFree(faces[f], edges, rem[f], f, Direction(edges, r));
    AssignKeepsPartialFace(faces[f], edges, edges', rem[f], f, r);
    OtherFacesStayPartial(faces, edges, edges', rem, f);
    OccupyStaysListed(faces, edges, r, f);
  }

  // ---- how many sides remain

  ghost function Total(rem: Remaining): nat {
    if rem == [] then 0 else |rem[0]| + Total(rem[1..])
  }

  lemma {:induction false} TotalUpdate(rem: Remaining, f: nat, m: multiset<Side>)
    requires f < |rem|
    ensures Total(rem[f := m]) == Total(rem) - |rem[f]| + |m|
  {
    if f == 0 {
      assert rem[0 := m][1..] == rem[1..];
    } else {
      assert rem[f := m][1..] == rem[1..][f - 1 := m];
      TotalUpdate(rem[1..], f - 1, m);
    }
  }

  // ---- the signed face indices of one vertex pair

  /** The directed side a signed face index stands for in the list of the pair (a, b). */
  function SideOf(a: int, b: int, x: int): Side {
    if x >= 0 then (a, b) else (b, a)
  }

  /** The list of a pair holds one signed index for every remaining side along the pair. */
  ghost predicate Counts(list: multiset<int>, rem: Remaining, a: int, b: int) {
    && (forall x :: x in list ==> Index(x) < |rem| && (a == b ==> x < 0))
    && (forall f :: 0 <= f < |rem| ==> CountOf(list, rem, a, b, f))
  }

  ghost predicate CountOf(list: multiset<int>, rem: Remaining, a: int, b: int, f: int)
    requires 0 <= f < |rem|
  {
    (a < b ==> list[f] == rem[f][(a, b)]) && list[Not(f)] == rem[f][(b, a)]
  }

  ghost function Taken(rem: Remaining, a: int, b: int, x: int): (rem': Remaining)
    requires Index(x) < |rem|
    ensures |rem'| == |rem|
  {
    rem[Index(x) := rem[Index(x)] - multiset{SideOf(a, b, x)}]
  }

  lemma TotalAfterTake(rem: Remaining, a: int, b: int, x: int)
    requires Index(x) < |rem| && SideOf(a, b, x) in rem[Index(x)]
    ensures Total(Taken(rem, a, b, x)) == Total(rem) - 1
  {
    TotalUpdate(rem, Index(x), rem[Index(x)] - multiset{SideOf(a, b, x)});
  }

  lemma CountAfterTake(list: multiset<int>, rem: Remaining, a: int, b: int, x: int, f: nat)
    requires a <= b && Counts(list, rem, a, b) && x in list && Index(x) < |rem| && f < |rem|
    ensures CountOf(list - multiset{x}, Taken(rem, a, b, x), a, b, f)
  {
    assert CountOf(list, rem, a, b, f);
    assert CountOf(list, rem, a, b, Index(x));
  }

  lemma TakeKeepsCounts(list: multiset<int>, rem: Remaining, a: int, b: int, x: int)
    requires a <= b && Counts(list, rem, a, b) && x in list
    ensures SideOf(a, b, x) in rem[Index(x)]
    ensures Counts(list - multiset{x}, Taken(rem, a, b, x), a, b)
    ensures Total(Taken(rem, a, b, x)) == Total(rem) - 1
  {
    hide Total, Taken;
    assert CountOf(list, rem, a, b, Index(x));
    TotalAfterTake(rem, a, b, x);
    forall f | 0 <= f < |rem| ensures CountOf(list - multiset{x}, Taken(rem, a, b, x), a, b, f) {
      CountAfterTake(list, rem, a, b, x, f);
    }
  }

  /** Only the two directions between a and b have been taken. */
  ghost predicate OnlyPairTaken(before: Remaining, after: Remaining, a: int, b: int) {
    && |before| == |after|
    && forall f, d :: 0 <= f < |before| && d != (a, b) && d != (b, a) ==> after[f][d] == before[f][d]
  }

  // ---- choosing a mate

  /** i is the last of the best oppositely directed faces in the list. */
  ghost predicate IsBestMate(list: seq<int>, f0: int, similarity: (int, int) -> real, i: int) {
    && 0 <= i < |list| && (list[i] >= 0) != (f0 >= 0)
    && forall k :: 0 <= k < |list| && (list[k] >= 0) != (f0 >= 0) ==>
      if k <= i then similarity(Index(list[k]), Index(f0)) <= similarity(Index(list[i]), Index(f0))
      else similarity(Index(list[k]), Index(f0)) < similarity(Index(list[i]), Index(f0))
  }

  /** Scans the list backwards for the best mate. */
  method FindMate(list: seq<int>, f0: int, similarity: (int, int) -> real) returns (found: bool, i1: int)
    ensures found ==> IsBestMate(list, f0, similarity, i1)
    ensures !found ==> forall k :: 0 <= k < |list| ==> (list[k] >= 0) == (f0 >= 0)
  {
    found, i1 := false, -1;
    var ndotn := -2.0;
    var i := |list| - 1;
    while i >= 0
      invariant -1 <= i < |list|
      invariant found ==> i < i1 < |list| && (list[i1] >= 0) != (f0 >= 0) && ndotn == similarity(Index(list[i1]), Index(f0))
      invariant !found ==> forall k :: i < k < |list| ==> (list[k] >= 0) == (f0 >= 0)
      invariant found ==> forall k :: i < k < |list| && (list[k] >= 0) != (f0 >= 0) ==>
        if k <= i1 then similarity(Index(list[k]), Index(f0)) <= ndotn else similarity(Index(list[k]), Index(f0)) < ndotn
    {
      var f := list[i];
      if (f >= 0) != (f0 >= 0) {
        var d := similarity(Index(f), Index(f0));
        if found {
          if d > ndotn {
            ndotn, i1 := d, i;
          }
        } else {
          found, ndotn, i1 := true, d, i;
        }
      }
      i := i - 1;
    }
  }

  /** Array::fastRemove: the last element takes the place of the removed one. */
  function FastRemove<T>(list: seq<T>, i: int): (r: seq<T>)
    requires 0 <= i < |list|
    ensures |r| == |list| - 1
  {
    list[i := list[|list| - 1]][..|list| - 1]
  }

  lemma FastRemoveMultiset<T>(list: seq<T>, i: int)
    requires 0 <= i < |list|
    ensures multiset(FastRemove(list, i)) == multiset(list) - multiset{list[i]}
  {
    var last := |list| - 1;
    var list' := list[i := list[last]];
    assert list' == FastRemove(list, i) + [list[last]];
    assert multiset(list') == multiset(list) - multiset{list[i]} + multiset{list[last]};
    assert multiset(FastRemove(list, i) + [list[last]]) == multiset(FastRemove(list, i)) + multiset{list[last]};
    CancelOne(multiset(FastRemove(list, i)), multiset(list) - multiset{list[i]}, list[last]);
  }

  lemma CancelOne<T>(a: multiset<T>, b: multiset<T>, x: T)
    requires a + multiset{x} == b + multiset{x}
    ensures a == b
  {
    assert (a + multiset{x}) - multiset{x} == a;
    assert (b + multiset{x}) - multiset{x} == b;
  }

  /** The position of the best mate of f0 in the list, or -1 when no face in it is opposite. */
  function BestMate(list: seq<int>, f0: int, similarity: (int, int) -> real): (i: int)
    ensures -1 <= i < |list|
  {
    if list == [] then -1 else
      var j := BestMate(list[1..], f0, similarity);
      var opposite := (list[0] >= 0) != (f0 >= 0);
      if j < 0 then (if opposite then 0 else -1)
      else if opposite && similarity(Index(list[0]), Index(f0)) > similarity(Index(list[1..][j]), Index(f0)) then 0
      else j + 1
  }

  lemma {:induction false} BestMateIsBest(list: seq<int>, f0: int, similarity: (int, int) -> real)
    ensures var i := BestMate(list, f0, similarity);
      if i >= 0 then IsBestMate(list, f0, similarity, i)
      else forall k :: 0 <= k < |list| ==> (list[k] >= 0) == (f0 >= 0)
  {
    if list != [] {
      BestMateIsBest(list[1..], f0, similarity);
      var rest := list[1..];
      assert forall k :: 0 < k < |list| ==> list[k] == rest[k - 1];
    }
  }

  lemma BestMateIsOnly(list: seq<int>, f0: int, similarity: (int, int) -> real, i: int)
    requires IsBestMate(list, f0, similarity, i)
    ensures BestMate(list, f0, similarity) == i
  {
    BestMateIsBest(list, f0, similarity);
  }

  /** The faces of one list in the order in which they are assigned their edge. */
  function TakingOrder(list: seq<int>, similarity: (int, int) -> real): seq<int>
    decreases |list|
  {
    if list == [] then [] else
      var f0, rest := list[|list| - 1], list[..|list| - 1];
      var i := BestMate(rest, f0, similarity);
      if i < 0 then [f0] + TakingOrder(rest, similarity)
      else [f0, rest[i]] + TakingOrder(FastRemove(rest, i), similarity)
  }

  lemma {:induction false} TakingOrderIsPermutation(list: seq<int>, similarity: (int, int) -> real)
    ensures multiset(TakingOrder(list, similarity)) == multiset(list)
    decreases |list|
  {
    if list != [] {
      var f0, rest := list[|list| - 1], list[..|list| - 1];
      assert list == rest + [f0];
      var i := BestMate(rest, f0, similarity);
      if i < 0 {
        TakingOrderIsPermutation(rest, similarity);
      } else {
        TakingOrderIsPermutation(FastRemove(rest, i), similarity);
        FastRemoveMultiset(rest, i);
      }
    }
  }

  lemma TakingStep(list: seq<int>, similarity: (int, int) -> real, found: bool, i1: int)
    requires list != []
    requires if found then IsBestMate(list[..|list| - 1], list[|list| - 1], similarity, i1)
             else forall k :: 0 <= k < |list| - 1 ==> (list[k] >= 0) == (list[|list| - 1] >= 0)
    ensures var f0, rest := list[|list| - 1], list[..|list| - 1];
      TakingOrder(list, similarity) ==
      if found then [f0] + [rest[i1]] + TakingOrder(FastRemove(rest, i1), similarity) else [f0] + TakingOrder(rest, similarity)
  {
    var f0, rest := list[|list| - 1], list[..|list| - 1];
    if found {
      BestMateIsOnly(rest, f0, similarity, i1);
      assert [f0, rest[i1]] == [f0] + [rest[i1]];
    } else {
      BestMateIsBest(rest, f0, similarity);
    }
  }

  /** The sides of face f in the order in which its slots are filled from the list of the pair (a, b). */
  function SidesFor(order: seq<int>, a: int, b: int, f: int): seq<Side> {
    if order == [] then []
    else (if Index(order[0]) == f then [SideOf(a, b, order[0])] else []) + SidesFor(order[1..], a, b, f)
  }

  predicate Filled(edges: seq<Edge>, r: int) {
    r != NONE && IsRef(edges, r)
  }

  function SlotSide(edges: seq<Edge>, r: int): seq<Side> {
    if Filled(edges, r) then [Direction(edges, r)] else []
  }

  /** The directed edges a face lists, in order. */
  function Listing(t: Triple, edges: seq<Edge>): seq<Side> {
    SlotSide(edges, t.a) + SlotSide(edges, t.b) + SlotSide(edges, t.c)
  }

  /** Every listing grows by the sides of the face that the order takes. */
  ghost predicate ListingsGrow(faces: seq<Face>, edges: seq<Edge>, faces': seq<Face>, edges': seq<Edge>, order: seq<int>, a: int, b: int) {
    && |faces'| == |faces|
    && forall f :: 0 <= f < |faces| ==>
      Listing(faces'[f].edgeIndex, edges') == Listing(faces[f].edgeIndex, edges) + SidesFor(order, a, b, f)
  }

  lemma Associates<T>(x: seq<T>, y: seq<T>, z: seq<T>)
    ensures x + (y + z) == (x + y) + z
  {
  }

  lemma {:induction false} SidesForConcat(order: seq<int>, more: seq<int>, a: int, b: int, f: int)
    ensures SidesFor(order + more, a, b, f) == SidesFor(order, a, b, f) + SidesFor(more, a, b, f)
  {
    hide SideOf, Index;
    if order == [] {
      assert order + more == more;
    } else {
      assert (order + more)[1..] == order[1..] + more && (order + more)[0] == order[0];
      SidesForConcat(order[1..], more, a, b, f);
      Associates(if Index(order[0]) == f then [SideOf(a, b, order[0])] else [],
                 SidesFor(order[1..], a, b, f), SidesFor(more, a, b, f));
    }
  }

  lemma NothingGrows(faces: seq<Face>, edges: seq<Edge>, a: int, b: int)
    ensures ListingsGrow(faces, edges, faces, edges, [], a, b)
  {
  }

  lemma NoneLeftToTake(list: seq<int>, order: seq<int>, similarity: (int, int) -> real)
    requires list == []
    ensures order + TakingOrder(list, similarity) == order
  {
  }

  lemma ListingsGrowTrans(
    faces: seq<Face>, edges: seq<Edge>, faces1: seq<Face>, edges1: seq<Edge>, faces2: seq<Face>, edges2: seq<Edge>,
    order: seq<int>, more: seq<int>, a: int, b: int)
    requires ListingsGrow(faces, edges, faces1, edges1, order, a, b)
    requires ListingsGrow(faces1, edges1, faces2, edges2, more, a, b)
    ensures ListingsGrow(faces, edges, faces2, edges2, order + more, a, b)
  {
    forall f | 0 <= f < |faces|
      ensures Listing(faces2[f].edgeIndex, edges2) == Listing(faces[f].edgeIndex, edges) + SidesFor(order + more, a, b, f)
    {
      SidesForConcat(order, more, a, b, f);
    }
  }

  lemma ListingAssigned(t: Triple, edges: seq<Edge>, r: int)
    requires t.c == NONE && (t.a == NONE ==> t.b == NONE) && Filled(edges, r)
    requires t.a == NONE || Filled(edges, t.a)
    requires t.b == NONE || Filled(edges, t.b)
    ensures Listing(Assigned(t, r), edges) == Listing(t, edges) + [Direction(edges, r)]
  {
  }

  lemma ListingStays(t: Triple, edges: seq<Edge>, edges': seq<Edge>, f: int)
    requires SlotsOk(t, edges, f)
    requires forall s :: IsRef(edges, s) ==> IsRef(edges', s) && Direction(edges', s) == Direction(edges, s)
    ensures Listing(t, edges') == Listing(t, edges)
  {
    assert SlotSide(edges', t.a) == SlotSide(edges, t.a);
    assert SlotSide(edges', t.b) == SlotSide(edges, t.b);
    assert SlotSide(edges', t.c) == SlotSide(edges, t.c);
  }

  lemma SidesForOne(x: int, a: int, b: int, f: int)
    ensures SidesFor([x], a, b, f) == if Index(x) == f then [SideOf(a, b, x)] else []
  {
    assert [x][1..] == [];
  }

  /** A face that is assigned an edge lists its direction after what it listed before. */
  lemma AssignGrows(
    faces: seq<Face>, edges: seq<Edge>, edges': seq<Edge>, rem: Remaining, e: nat, x: int, a: int, b: int)
    requires Partial(faces, edges, rem) && Index(x) < |faces| && faces[Index(x)].edgeIndex.c == NONE
    requires |edges'| <= MAX_INT && (forall s :: IsRef(edges, s) ==> IsRef(edges', s) && Direction(edges', s) == Direction(edges, s))
    requires IsRef(edges', RefFor(e, x)) && Direction(edges', RefFor(e, x)) == SideOf(a, b, x)
    ensures ListingsGrow(faces, edges, WithEdge(faces, e, x), edges', [x], a, b)
  {
    var faces' := WithEdge(faces, e, x);
    forall f | 0 <= f < |faces|
      ensures Listing(faces'[f].edgeIndex, edges') == Listing(faces[f].edgeIndex, edges) + SidesFor([x], a, b, f)
    {
      hide Listing, Direction, Counts;
      var t := faces[f].edgeIndex;
      assert PartialFace(faces[f], edges, rem[f], f);
      ListingStays(t, edges, edges', f);
      SidesForOne(x, a, b, f);
      if f == Index(x) {
        ListingAssigned(t, edges', RefFor(e, x));
      }
    }
  }

  // ---- one pair of vertices

  /** The list of a pair with its bookkeeping. */
  ghost predicate Pairable(faces: seq<Face>, edges: seq<Edge>, rem: Remaining, list: seq<int>, a: int, b: int) {
    && a <= b
    && Partial(faces, edges, rem)
    && Counts(multiset(list), rem, a, b)
    && |edges| + Total(rem) <= MAX_INT
  }

  function HalfEdge(a: int, b: int, x: int): Edge {
    if x >= 0 then Edge(a, b, x, NONE) else Edge(a, b, NONE, Not(x))
  }

  /** The reference by which the face with signed index x lists edge e. */
  function RefFor(e: nat, x: int): int {
    if x >= 0 then e else Not(e)
  }

  ghost predicate SameTriangles(faces: seq<Face>, faces': seq<Face>) {
    |faces'| == |faces| && forall f :: 0 <= f < |faces| ==> faces'[f].vertexIndex == faces[f].vertexIndex
  }

  /** The faces after the one with signed index x has been assigned edge e. */
  function WithEdge(faces: seq<Face>, e: nat, x: int): (faces': seq<Face>)
    requires Index(x) < |faces|
    ensures SameTriangles(faces, faces')
  {
    var face := faces[Index(x)];
    faces[Index(x) := face.(edgeIndex := Assigned(face.edgeIndex, RefFor(e, x)))]
  }

  lemma PopKeepsCounts(list: seq<int>, rem: Remaining, a: int, b: int, f0: int)
    requires a <= b && Counts(multiset(list + [f0]), rem, a, b)
    ensures Index(f0) < |rem| && SideOf(a, b, f0) in rem[Index(f0)]
    ensures Counts(multiset(list), Taken(rem, a, b, f0), a, b)
    ensures Total(Taken(rem, a, b, f0)) == Total(rem) - 1
  {
    assert multiset(list + [f0]) == multiset(list) + multiset{f0};
    TakeKeepsCounts(multiset(list + [f0]), rem, a, b, f0);
    assert multiset(list + [f0]) - multiset{f0} == multiset(list);
  }

  lemma RemoveKeepsCounts(list: seq<int>, rem: Remaining, a: int, b: int, i: int)
    requires a <= b && Counts(multiset(list), rem, a, b) && 0 <= i < |list|
    ensures Index(list[i]) < |rem| && SideOf(a, b, list[i]) in rem[Index(list[i])]
    ensures Counts(multiset(FastRemove(list, i)), Taken(rem, a, b, list[i]), a, b)
    ensures Total(Taken(rem, a, b, list[i])) == Total(rem) - 1
  {
    assert list[i] in multiset(list);
    TakeKeepsCounts(multiset(list), rem, a, b, list[i]);
    FastRemoveMultiset(list, i);
  }

  /** Face numbers stay clear of the marker for no face. */
  lemma SmallIndex(faces: seq<Face>, edges: seq<Edge>, rem: Remaining, x: int)
    requires Partial(faces, edges, rem) && Index(x) < |faces| && |faces| <= MAX_INT
    ensures x != NONE && Not(x) != NONE
  {
  }

  lemma CreateKeepsPartial(faces: seq<Face>, edges: seq<Edge>, rem: Remaining, a: int, b: int, x: int)
    requires Partial(faces, edges, rem) && |edges| < MAX_INT
    requires Index(x) < |faces| && SideOf(a, b, x) in rem[Index(x)]
    ensures faces[Index(x)].edgeIndex.c == NONE
    ensures Partial(WithEdge(faces, |edges|, x), edges + [HalfEdge(a, b, x)], Taken(rem, a, b, x))
  {
    hide Partial;
    var edges1 := edges + [NewEdge(a, b)];
    NewEdgeKeepsPartial(faces, edges, rem, a, b);
    OccupyKeepsPartial(faces, edges1, rem, RefFor(|edges|, x), Index(x));
    assert edges + [HalfEdge(a, b, x)] == Occupied(edges1, RefFor(|edges|, x), Index(x));
  }

  function Joined(edge: Edge, x: int): Edge {
    if x >= 0 then edge.(f0 := x) else edge.(f1 := Not(x))
  }

  lemma JoinKeepsPartial(faces: seq<Face>, edges: seq<Edge>, rem: Remaining, e: nat, x: int)
    requires Partial(faces, edges, rem) && e < |edges| && SideFace(edges, RefFor(e, x)) == NONE
    requires Index(x) < |faces| && SideOf(edges[e].v0, edges[e].v1, x) in rem[Index(x)]
    ensures faces[Index(x)].edgeIndex.c == NONE
    ensures Partial(WithEdge(faces, e, x), edges[e := Joined(edges[e], x)], Taken(rem, edges[e].v0, edges[e].v1, x))
  {
    OccupyKeepsPartial(faces, edges, rem, RefFor(e, x), Index(x));
  }

  /** Assigns edge e to the face with signed index x, complementing both where x is negative. */
  method AssignToFace(faces: seq<Face>, e: nat, x: int) returns (faces': seq<Face>)
    requires Index(x) < |faces| && faces[Index(x)].edgeIndex.c == NONE
    ensures faces' == WithEdge(faces, e, x)
  {
    assert faces[Index(x)].edgeIndex.At(2) == NONE;
    if x >= 0 {
      var face := AssignEdgeIndex(faces[x], e);
      faces' := faces[x := face];
    } else {
      var face := AssignEdgeIndex(faces[Not(x)], Not(e));
      faces' := faces[Not(x) := face];
    }
  }

  /** Edges [n..] are the ones made for the pair (a, b), and those left open are all open on the same side. */
  ghost predicate PairEdges(edges: seq<Edge>, n: nat, a: int, b: int) {
    && n <= |edges|
    && (forall e :: n <= e < |edges| ==> edges[e].v0 == a && edges[e].v1 == b && HasFace(edges[e]) && SelfEdgeOpen(edges[e]))
    && forall e, g :: n <= e < |edges| && n <= g < |edges| ==> SameOpenSide(edges[e], edges[g])
  }

  predicate HasFace(edge: Edge) {
    edge.f0 != NONE || edge.f1 != NONE
  }

  /** An edge from a vertex to itself only ever has the face that runs it backwards. */
  predicate SelfEdgeOpen(edge: Edge) {
    edge.v0 == edge.v1 ==> edge.f0 == NONE
  }

  /** Two edges open on opposite sides could still be joined. */
  predicate SameOpenSide(e: Edge, g: Edge) {
    e.Boundary() && g.Boundary() ==> (e.f0 == NONE <==> g.f0 == NONE)
  }

  /** Nothing in the list could fill the edge if it was left open. */
  ghost predicate NoMateIn(edge: Edge, list: seq<int>) {
    edge.Boundary() ==> forall x :: x in list ==> (edge.f0 != NONE <==> x >= 0)
  }

  lemma FastRemoveSubset<T>(list: seq<T>, i: int)
    requires 0 <= i < |list|
    ensures forall x :: x in FastRemove(list, i) ==> x in list
  {
  }

  lemma TakenIsOnlyPair(rem: Remaining, a: int, b: int, x: int)
    requires Index(x) < |rem|
    ensures OnlyPairTaken(rem, Taken(rem, a, b, x), a, b)
  {
  }

  /** Creating the edge of the face popped from the list. */
  lemma CreateStep(faces: seq<Face>, edges: seq<Edge>, rem: Remaining, list: seq<int>, a: int, b: int, f0: int)
    requires Pairable(faces, edges, rem, list + [f0], a, b)
    ensures Index(f0) < |faces| == |rem| && faces[Index(f0)].edgeIndex.c == NONE && f0 != NONE && Not(f0) != NONE
    ensures Pairable(WithEdge(faces, |edges|, f0), edges + [HalfEdge(a, b, f0)], Taken(rem, a, b, f0), list, a, b)
    ensures OnlyPairTaken(rem, Taken(rem, a, b, f0), a, b)
  {
    PopKeepsCounts(list, rem, a, b, f0);
    CreateKeepsPartial(faces, edges, rem, a, b, f0);
    SmallIndex(faces, edges, rem, f0);
    TakenIsOnlyPair(rem, a, b, f0);
  }

  /** Giving the free side of the last edge to its mate, which leaves the list. */
  lemma JoinStep(faces: seq<Face>, edges: seq<Edge>, rem: Remaining, list: seq<int>, edge: Edge, i1: int)
    requires Pairable(faces, edges + [edge], rem, list, edge.v0, edge.v1) && 0 <= i1 < |list|
    requires if list[i1] >= 0 then edge.f0 == NONE else edge.f1 == NONE
    ensures Index(list[i1]) < |faces| == |rem| && faces[Index(list[i1])].edgeIndex.c == NONE
    ensures list[i1] != NONE && Not(list[i1]) != NONE
    ensures Pairable(WithEdge(faces, |edges|, list[i1]), edges + [Joined(edge, list[i1])],
              Taken(rem, edge.v0, edge.v1, list[i1]), FastRemove(list, i1), edge.v0, edge.v1)
    ensures OnlyPairTaken(rem, Taken(rem, edge.v0, edge.v1, list[i1]), edge.v0, edge.v1)
  {
    hide Counts, Taken, OnlyPairTaken, Total, FastRemove, WithEdge;
    RemoveKeepsCounts(list, rem, edge.v0, edge.v1, i1);
    JoinKeepsPartial(faces, edges + [edge], rem, |edges|, list[i1]);
    assert (edges + [edge])[|edges| := Joined(edge, list[i1])] == edges + [Joined(edge, list[i1])];
    SmallIndex(faces, edges + [edge], rem, list[i1]);
    TakenIsOnlyPair(rem, edge.v0, edge.v1, list[i1]);
  }

  lemma CreateGrows(faces: seq<Face>, edges: seq<Edge>, rem: Remaining, list: seq<int>, a: int, b: int, f0: int)
    requires Pairable(faces, edges, rem, list + [f0], a, b)
    requires Index(f0) < |faces| && faces[Index(f0)].edgeIndex.c == NONE
    requires Pairable(WithEdge(faces, |edges|, f0), edges + [HalfEdge(a, b, f0)], Taken(rem, a, b, f0), list, a, b)
    ensures ListingsGrow(faces, edges, WithEdge(faces, |edges|, f0), edges + [HalfEdge(a, b, f0)], [f0], a, b)
  {
    hide ListingsGrow, Counts, WithEdge, Total, Taken;
    var edges' := edges + [HalfEdge(a, b, f0)];
    assert |edges'| <= MAX_INT by { hide Partial; }
    assert forall s :: IsRef(edges, s) ==> IsRef(edges', s) && Direction(edges', s) == Direction(edges, s) by {
      hide Partial;
    }
    AssignGrows(faces, edges, edges + [HalfEdge(a, b, f0)], rem, |edges|, f0, a, b);
  }

  lemma JoinGrows(faces: seq<Face>, edges: seq<Edge>, rem: Remaining, list: seq<int>, edge: Edge, i1: int)
    requires Pairable(faces, edges + [edge], rem, list, edge.v0, edge.v1) && 0 <= i1 < |list|
    requires Index(list[i1]) < |faces| && faces[Index(list[i1])].edgeIndex.c == NONE
    ensures ListingsGrow(faces, edges + [edge], WithEdge(faces, |edges|, list[i1]), edges + [Joined(edge, list[i1])],
              [list[i1]], edge.v0, edge.v1)
  {
    hide ListingsGrow, Counts, WithEdge;
    AssignGrows(faces, edges + [edge], edges + [Joined(edge, list[i1])], rem, |edges|, list[i1], edge.v0, edge.v1);
  }

  /** A side that runs forwards does not run from a vertex to itself. */
  lemma ForwardMeansTwoVertices(list: seq<int>, rem: Remaining, a: int, b: int)
    requires Counts(multiset(list), rem, a, b)
    ensures a == b ==> forall x :: x in list ==> x < 0
  {
    assert forall x :: x in list ==> x in multiset(list);
  }

  /** Creates the edge of the face popped from the list. */
  method CreateEdge(
    faces0: seq<Face>, edges0: seq<Edge>, list: seq<int>, a: int, b: int, f0: int, ghost rem0: Remaining)
    returns (faces: seq<Face>, edge: Edge, ghost rem: Remaining)
    requires Pairable(faces0, edges0, rem0, list + [f0], a, b)
    ensures Pairable(faces, edges0 + [edge], rem, list, a, b) && SameTriangles(faces0, faces)
    ensures OnlyPairTaken(rem0, rem, a, b)
    ensures edge == HalfEdge(a, b, f0) && f0 != NONE && Not(f0) != NONE
    ensures ListingsGrow(faces0, edges0, faces, edges0 + [edge], [f0], a, b)
  {
    hide Pairable, ListingsGrow, OnlyPairTaken;
    CreateStep(faces0, edges0, rem0, list, a, b, f0);
    CreateGrows(faces0, edges0, rem0, list, a, b, f0);
    edge := HalfEdge(a, b, f0);
    faces := AssignToFace(faces0, |edges0|, f0);
    rem := Taken(rem0, a, b, f0);
  }

  /** Makes one edge from the last side in the list and, if there is one, its best mate. */
  method PairLast(
    faces0: seq<Face>, edges0: seq<Edge>, faceIndexArray: seq<int>, a: int, b: int,
    similarity: (int, int) -> real, ghost rem0: Remaining)
    returns (faces: seq<Face>, edge: Edge, list: seq<int>, ghost rem: Remaining, ghost taken: seq<int>)
    requires faceIndexArray != [] && Pairable(faces0, edges0, rem0, faceIndexArray, a, b)
    ensures Pairable(faces, edges0 + [edge], rem, list, a, b) && SameTriangles(faces0, faces)
    ensures OnlyPairTaken(rem0, rem, a, b)
    ensures |list| < |faceIndexArray| && forall x :: x in list ==> x in faceIndexArray
    ensures edge.v0 == a && edge.v1 == b && HasFace(edge) && SelfEdgeOpen(edge)
    ensures NoMateIn(edge, list)
    ensures edge.Boundary() ==> (edge.f0 != NONE <==> faceIndexArray[|faceIndexArray| - 1] >= 0)
    ensures PairedWithBest(faceIndexArray, similarity, edge)
    ensures taken + TakingOrder(list, similarity) == TakingOrder(faceIndexArray, similarity)
    ensures ListingsGrow(faces0, edges0, faces, edges0 + [edge], taken, a, b)
  {
    hide Partial, OnlyPairTaken, ListingsGrow, TakingOrder, BestMate;
    var f0 := faceIndexArray[|faceIndexArray| - 1];
    list := faceIndexArray[..|faceIndexArray| - 1];
    assert faceIndexArray == list + [f0];
    ForwardMeansTwoVertices(faceIndexArray, rem0, a, b);
    var found, i1 := FindMate(list, f0, similarity);
    TakingStep(faceIndexArray, similarity, found, i1);
    faces, edge, rem := CreateEdge(faces0, edges0, list, a, b, f0, rem0);
    taken := [f0];
    if found {
      ghost var faces1, edge1, before := faces, edge, rem;
      taken := [f0] + [list[i1]];
      faces, edge, list, rem := JoinMate(faces, edges0, list, edge, i1, rem);
      OnlyPairTakenTrans(rem0, before, rem, a, b);
      ListingsGrowTrans(faces0, edges0, faces1, edges0 + [edge1], faces, edges0 + [edge], [f0], taken[1..], a, b);
    }
  }

  /** The edge joins the last face in the list with its best mate, or with none if there is no opposite one. */
  ghost predicate PairedWithBest(list: seq<int>, similarity: (int, int) -> real, edge: Edge)
    requires list != []
  {
    var f0, others := list[|list| - 1], list[..|list| - 1];
    if edge.Boundary() then forall k :: 0 <= k < |others| ==> (others[k] >= 0) == (f0 >= 0)
    else exists i :: IsBestMate(others, f0, similarity, i) && edge == Joined(HalfEdge(edge.v0, edge.v1, f0), others[i])
  }

  /** The mate leaves the list and occupies the free side of the edge. */
  method JoinMate(
    faces0: seq<Face>, edges0: seq<Edge>, list0: seq<int>, edge0: Edge, i1: int, ghost rem0: Remaining)
    returns (faces: seq<Face>, edge: Edge, list: seq<int>, ghost rem: Remaining)
    requires Pairable(faces0, edges0 + [edge0], rem0, list0, edge0.v0, edge0.v1) && 0 <= i1 < |list0|
    requires if list0[i1] >= 0 then edge0.f0 == NONE else edge0.f1 == NONE
    ensures Pairable(faces, edges0 + [edge], rem, list, edge0.v0, edge0.v1) && SameTriangles(faces0, faces)
    ensures OnlyPairTaken(rem0, rem, edge0.v0, edge0.v1)
    ensures list == FastRemove(list0, i1) && forall x :: x in list ==> x in list0
    ensures edge == Joined(edge0, list0[i1]) && list0[i1] != NONE && Not(list0[i1]) != NONE
    ensures ListingsGrow(faces0, edges0 + [edge0], faces, edges0 + [edge], [list0[i1]], edge0.v0, edge0.v1)
  {
    hide Pairable, ListingsGrow, OnlyPairTaken;
    var f1 := list0[i1];
    JoinStep(faces0, edges0, rem0, list0, edge0, i1);
    JoinGrows(faces0, edges0, rem0, list0, edge0, i1);
    FastRemoveSubset(list0, i1);
    edge := Joined(edge0, f1);
    faces := AssignToFace(faces0, |edges0|, f1);
    rem := Taken(rem0, edge0.v0, edge0.v1, f1);
    list := FastRemove(list0, i1);
  }

  ghost predicate OpenForGood(edges: seq<Edge>, n: nat, list: seq<int>) {
    forall e :: n <= e < |edges| ==> NoMateIn(edges[e], list)
  }

  /** An edge left open faces the same way as all edges left open before it. */
  lemma PairEdgesGrow(edges: seq<Edge>, n: nat, a: int, b: int, list: seq<int>, edge: Edge, list': seq<int>)
    requires PairEdges(edges, n, a, b) && OpenForGood(edges, n, list) && list != []
    requires edge.v0 == a && edge.v1 == b && HasFace(edge) && SelfEdgeOpen(edge) && NoMateIn(edge, list')
    requires edge.Boundary() ==> (edge.f0 != NONE <==> list[|list| - 1] >= 0)
    requires forall x :: x in list' ==> x in list
    ensures PairEdges(edges + [edge], n, a, b) && OpenForGood(edges + [edge], n, list')
  {
    forall e | n <= e < |edges| ensures NoMateIn(edges[e], list') && SameOpenSide(edges[e], edge) {
      assert NoMateIn(edges[e], list) && list[|list| - 1] in list;
    }
  }

  lemma OnlyPairTakenTrans(r0: Remaining, r1: Remaining, r2: Remaining, a: int, b: int)
    requires OnlyPairTaken(r0, r1, a, b) && OnlyPairTaken(r1, r2, a, b)
    ensures OnlyPairTaken(r0, r2, a, b)
  {
  }

  /** Turns every remaining side between a and b into an edge, two to an edge as long as opposite ones remain. */
  method ProcessEntry(
    faces0: seq<Face>, edges0: seq<Edge>, list0: seq<int>, a: int, b: int,
    similarity: (int, int) -> real, ghost rem0: Remaining)
    returns (faces: seq<Face>, edges: seq<Edge>, ghost rem: Remaining)
    requires Pairable(faces0, edges0, rem0, list0, a, b)
    ensures Pairable(faces, edges, rem, [], a, b) && SameTriangles(faces0, faces)
    ensures OnlyPairTaken(rem0, rem, a, b)
    ensures edges0 <= edges && PairEdges(edges, |edges0|, a, b)
    ensures ListingsGrow(faces0, edges0, faces, edges, TakingOrder(list0, similarity), a, b)
  {
    hide ListingsGrow, TakingOrder, Pairable, PairedWithBest;
    faces, edges, rem := faces0, edges0, rem0;
    var faceIndexArray := list0;
    ghost var order := [];
    NothingGrows(faces0, edges0, a, b);
    while |faceIndexArray| > 0
      invariant Pairable(faces, edges, rem, faceIndexArray, a, b) && SameTriangles(faces0, faces)
      invariant OnlyPairTaken(rem0, rem, a, b)
      invariant edges0 <= edges && PairEdges(edges, |edges0|, a, b)
      invariant OpenForGood(edges, |edges0|, faceIndexArray)
      invariant order + TakingOrder(faceIndexArray, similarity) == TakingOrder(list0, similarity)
      invariant ListingsGrow(faces0, edges0, faces, edges, order, a, b)
    {
      var edge, list;
      ghost var faces1, before, taken := faces, rem, [];
      faces, edge, list, rem, taken := PairLast(faces, edges, faceIndexArray, a, b, similarity, rem);
      OnlyPairTakenTrans(rem0, before, rem, a, b);
      ListingsGrowTrans(faces0, edges0, faces1, edges, faces, edges + [edge], order, taken, a, b);
      order := order + taken;
      PairEdgesGrow(edges, |edges0|, a, b, faceIndexArray, edge, list);
      edges, faceIndexArray := edges + [edge], list;
    }
    NoneLeftToTake(faceIndexArray, order, similarity);
  }
}
