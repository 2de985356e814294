/** Axis-aligned boxes tested against culling planes, with masks for what lies inside them. */
module Culling {
  import opened BitStreams

  /** The largest finite coordinate, and what stands for an infinite one. */
  const MAX_FINITE := 340282346638528859811704183484516925440.0
  const INFINITE := 2.0 * MAX_FINITE

  /** It is the largest number in 24 bits of precision below 2^128, and infinity lies beyond it. */
  lemma LargestSingle()
    ensures MAX_FINITE == (0x1_0000_0000_0000_0000_0000_0000_0000_0000 - 0x100_0000_0000_0000_0000_0000_0000) as real
    ensures INFINITE > MAX_FINITE
  {
  }

  predicate IsCoordinate(x: real) {
    -MAX_FINITE <= x <= MAX_FINITE || x == INFINITE || x == -INFINITE
  }

  datatype Vector3 = Vector3(x: real, y: real, z: real)

  /** A half space: the points whose product with the normal is at least the distance. */
  datatype Plane = Plane(normal: Vector3, distance: real)

  datatype AABox = AABox(lo: Vector3, hi: Vector3)

  predicate IsBox(b: AABox) {
    && IsCoordinate(b.lo.x) && IsCoordinate(b.lo.y) && IsCoordinate(b.lo.z)
    && IsCoordinate(b.hi.x) && IsCoordinate(b.hi.y) && IsCoordinate(b.hi.z)
    && b.lo.x <= b.hi.x && b.lo.y <= b.hi.y && b.lo.z <= b.hi.z
  }

  predicate Inside(inner: AABox, outer: AABox) {
    && outer.lo.x <= inner.lo.x && inner.hi.x <= outer.hi.x
    && outer.lo.y <= inner.lo.y && inner.hi.y <= outer.hi.y
    && outer.lo.z <= inner.lo.z && inner.hi.z <= outer.hi.z
  }

  function Clamp(x: real): real {
    if x < -MAX_FINITE then -MAX_FINITE else if x > MAX_FINITE then MAX_FINITE else x
  }

  /** A finite coordinate is left as it is, any other goes to the nearest finite one. */
  lemma ClampIsNearest(x: real, y: real)
    requires -MAX_FINITE <= y <= MAX_FINITE
    ensures -MAX_FINITE <= Clamp(x) <= MAX_FINITE && Clamp(y) == y
    ensures y <= Clamp(x) <= x || x <= Clamp(x) <= y || Clamp(x) == x
  {
  }

  /** One term of the product of a normal with a point clamped to finite coordinates. */
  function Term(k: real, x: real): real {
    k * Clamp(x)
  }

  predicate HalfSpaceContains(p: Plane, q: Vector3) {
    Term(p.normal.x, q.x) + Term(p.normal.y, q.y) + Term(p.normal.z, q.z) >= p.distance
  }

  predicate HalfSpaceContainsFinite(p: Plane, q: Vector3) {
    p.normal.x * q.x + p.normal.y * q.y + p.normal.z * q.z >= p.distance
  }

  /** The eight corners, numbered by the bits of v. */
  function Corner(b: AABox, v: nat): Vector3 {
    Vector3(if v % 2 == 1 then b.hi.x else b.lo.x,
            if v / 2 % 2 == 1 then b.hi.y else b.lo.y,
            if v / 4 % 2 == 1 then b.hi.z else b.lo.z)
  }

  predicate AllOutside(b: AABox, p: Plane) {
    forall v :: 0 <= v < 8 ==> !HalfSpaceContains(p, Corner(b, v))
  }

  predicate AllInside(b: AABox, p: Plane) {
    forall v :: 0 <= v < 8 ==> HalfSpaceContains(p, Corner(b, v))
  }

  predicate Bit(mask: nat, p: nat) {
    mask / Pow2(p) % 2 == 1
  }

  // ----- The results of a test -----

  /** The first masked plane with the whole box on its negative side, or -1. */
  function CullingPlane(b: AABox, planes: seq<Plane>, mask: nat, p: nat): int
    requires p <= |planes|
    decreases |planes| - p
  {
    if p == |planes| then -1
    else if Bit(mask, p) && AllOutside(b, planes[p]) then p
    else CullingPlane(b, planes, mask, p + 1)
  }

  /** The masked planes before p that the box straddles. */
  function Straddled(b: AABox, planes: seq<Plane>, mask: nat, p: nat): nat
    requires p <= |planes|
    decreases p
  {
    if p == 0 then 0
    else
      Straddled(b, planes, mask, p - 1)
      + if Bit(mask, p - 1) && !AllInside(b, planes[p - 1]) then Pow2(p - 1) else 0
  }

  function ChildMask(b: AABox, planes: seq<Plane>, mask: nat): nat {
    var c := CullingPlane(b, planes, mask, 0);
    if c >= 0 then Pow2(c) else Straddled(b, planes, mask, |planes|)
  }

  // ----- Bits of masks -----

  lemma {:induction false} StraddledBound(b: AABox, planes: seq<Plane>, mask: nat, p: nat)
    requires p <= |planes|
    ensures Straddled(b, planes, mask, p) < Pow2(p)
    decreases p
  {
    if p > 0 {
      StraddledBound(b, planes, mask, p - 1);
    }
  }

  /** Setting a bit above all others changes no other bit. */
  lemma {:induction false} HighBit(m: nat, p: nat, q: nat)
    requires m < Pow2(p)
    ensures Bit(m + Pow2(p), q) <==> q == p || Bit(m, q)
    ensures q >= p ==> !Bit(m, q)
    decreases p
  {
    hide Bit;
    if q == 0 {
      LowestBit(m);
      LowestBit(m + Pow2(p));
    } else {
      BitOfHalf(m, q);
      BitOfHalf(m + Pow2(p), q);
    }
    if p == 0 {
      if q > 0 {
        ZeroHasNoBit(q - 1);
      }
    } else {
      HalfOfSum(m, Pow2(p - 1));
      if q > 0 {
        HighBit(m / 2, p - 1, q - 1);
      }
    }
  }

  lemma LowestBit(m: nat)
    ensures Bit(m, 0) == (m % 2 == 1)
  {
  }

  lemma HalfOfSum(m: nat, k: nat)
    ensures (m + 2 * k) % 2 == m % 2 && (m + 2 * k) / 2 == m / 2 + k
  {
  }

  lemma BitOfHalf(m: nat, q: nat)
    requires q > 0
    ensures Bit(m, q) == Bit(m / 2, q - 1)
  {
    DivideTwice(m, 2, Pow2(q - 1));
  }

  lemma ZeroHasNoBit(q: nat)
    ensures !Bit(0, q) && 0 / Pow2(q) == 0
  {
    UniqueQuotient(0, Pow2(q), 0, 0);
  }

  lemma OneBit(p: nat, q: nat)
    ensures Bit(Pow2(p), q) <==> q == p
  {
    HighBit(0, p, q);
    ZeroHasNoBit(q);
  }

  lemma {:induction false} StraddledBits(b: AABox, planes: seq<Plane>, mask: nat, p: nat, q: nat)
    requires p <= |planes|
    ensures Bit(Straddled(b, planes, mask, p), q) <==> q < p && Bit(mask, q) && !AllInside(b, planes[q])
    decreases p
  {
    hide Bit, AllInside, Pow2;
    if p == 0 {
      ZeroHasNoBit(q);
    } else {
      StraddledBits(b, planes, mask, p - 1, q);
      StraddledBound(b, planes, mask, p - 1);
      HighBit(Straddled(b, planes, mask, p - 1), p - 1, q);
    }
  }

  lemma {:induction false} AllBitsSet(n: nat, p: nat)
    requires p < n
    ensures Bit(Pow2(n) - 1, p)
    decreases n
  {
    if p == 0 {
      HalfOfSum(1, Pow2(n - 1) - 1);
    } else {
      HalfOfSum(1, Pow2(n - 1) - 1);
      BitOfHalf(Pow2(n) - 1, p);
      AllBitsSet(n - 1, p - 1);
    }
  }

  /** No plane is tested with a mask of zero, and every plane with a mask of all ones. */
  lemma EmptyAndFullMask(b: AABox, planes: seq<Plane>, p: nat)
    requires |planes| < 31 && p < |planes|
    ensures !Bit(0, p) && Bit(0xFFFF_FFFF, p)
  {
    ZeroHasNoBit(p);
    assert Pow2(8) == 0x100 && Pow2(16) == 0x1_0000 && Pow2(24) == 0x100_0000 && Pow2(32) == 0x1_0000_0000;
    AllBitsSet(32, p);
  }

  // ----- Boxes inside boxes -----

  lemma ProductOrder(k: real, x: real, y: real)
    requires x <= y
    ensures k >= 0.0 ==> k * x <= k * y
    ensures k <= 0.0 ==> k * y <= k * x
  {
    assert k >= 0.0 ==> k * (y - x) >= 0.0;
    assert k <= 0.0 ==> (0.0 - k) * (y - x) >= 0.0;
  }

  lemma ClampOrder(x: real, y: real)
    requires x <= y
    ensures Clamp(x) <= Clamp(y)
  {
  }

  lemma AlongAxis(k: real, low: real, x: real, high: real)
    requires low <= x <= high
    ensures k >= 0.0 ==> Term(k, low) <= Term(k, x) <= Term(k, high)
    ensures k < 0.0 ==> Term(k, high) <= Term(k, x) <= Term(k, low)
  {
    hide Clamp;
    ClampOrder(low, x);
    ClampOrder(x, high);
    ProductOrder(k, Clamp(low), Clamp(x));
    ProductOrder(k, Clamp(x), Clamp(high));
  }

  /** The corner of the box lowest, or highest, along the normal. */
  function Extreme(n: Vector3, highest: bool): nat {
    (if (n.x >= 0.0) == highest then 1 else 0) + (if (n.y >= 0.0) == highest then 2 else 0)
    + (if (n.z >= 0.0) == highest then 4 else 0)
  }

  lemma ExtremeBounds(b: AABox, p: Plane, q: Vector3)
    requires b.lo.x <= q.x <= b.hi.x && b.lo.y <= q.y <= b.hi.y && b.lo.z <= q.z <= b.hi.z
    ensures HalfSpaceContains(p, Corner(b, Extreme(p.normal, false))) ==> HalfSpaceContains(p, q)
    ensures HalfSpaceContains(p, q) ==> HalfSpaceContains(p, Corner(b, Extreme(p.normal, true)))
  {
    hide Term, Corner, Extreme;
    var n := p.normal;
    AlongAxis(n.x, b.lo.x, q.x, b.hi.x);
    AlongAxis(n.y, b.lo.y, q.y, b.hi.y);
    AlongAxis(n.z, b.lo.z, q.z, b.hi.z);
    ExtremeCorner(b, n, false);
    ExtremeCorner(b, n, true);
  }

  lemma ExtremeCorner(b: AABox, n: Vector3, highest: bool)
    ensures Corner(b, Extreme(n, highest))
      == Vector3(if (n.x >= 0.0) == highest then b.hi.x else b.lo.x,
                 if (n.y >= 0.0) == highest then b.hi.y else b.lo.y,
                 if (n.z >= 0.0) == highest then b.hi.z else b.lo.z)
  {
  }

  /** What holds of all corners of a box holds of all boxes inside. */
  lemma InnerBox(inner: AABox, outer: AABox, p: Plane)
    requires IsBox(inner) && Inside(inner, outer)
    ensures AllInside(outer, p) ==> AllInside(inner, p)
    ensures AllOutside(outer, p) ==> AllOutside(inner, p)
    ensures AllInside(inner, p) ==> !AllOutside(inner, p)
  {
    var low, high := Extreme(p.normal, false), Extreme(p.normal, true);
    assert HalfSpaceContains(p, Corner(outer, low)) || !AllInside(outer, p);
    assert !HalfSpaceContains(p, Corner(outer, high)) || !AllOutside(outer, p);
    forall v | 0 <= v < 8
      ensures AllInside(outer, p) ==> HalfSpaceContains(p, Corner(inner, v))
      ensures AllOutside(outer, p) ==> !HalfSpaceContains(p, Corner(inner, v))
    {
      ExtremeBounds(outer, p, Corner(inner, v));
    }
    assert HalfSpaceContains(p, Corner(inner, 0)) || !AllInside(inner, p);
  }

  // ----- What masks are for -----

  /** Two masks that differ only in planes the box is wholly inside of. */
  predicate MasksAgree(b: AABox, planes: seq<Plane>, m: nat, n: nat) {
    forall p :: 0 <= p < |planes| && Bit(m, p) != Bit(n, p) ==> AllInside(b, planes[p])
  }

  lemma {:induction false} SameCullingPlane(b: AABox, planes: seq<Plane>, m: nat, n: nat, p: nat)
    requires IsBox(b) && MasksAgree(b, planes, m, n) && p <= |planes|
    ensures CullingPlane(b, planes, m, p) == CullingPlane(b, planes, n, p)
    decreases |planes| - p
  {
    if p < |planes| {
      InnerBox(b, b, planes[p]);
      SameCullingPlane(b, planes, m, n, p + 1);
    }
  }

  lemma {:induction false} SameStraddled(b: AABox, planes: seq<Plane>, m: nat, n: nat, p: nat)
    requires MasksAgree(b, planes, m, n) && p <= |planes|
    ensures Straddled(b, planes, m, p) == Straddled(b, planes, n, p)
    decreases p
  {
    if p > 0 {
      SameStraddled(b, planes, m, n, p - 1);
    }
  }

  lemma MaskIsEnough(parent: AABox, child: AABox, planes: seq<Plane>, mask: nat)
    requires IsBox(child) && Inside(child, parent) && CullingPlane(parent, planes, mask, 0) == -1
    ensures MasksAgree(child, planes, mask, ChildMask(parent, planes, mask))
  {
    var c := ChildMask(parent, planes, mask);
    forall p | 0 <= p < |planes| && Bit(mask, p) != Bit(c, p) ensures AllInside(child, planes[p]) {
      StraddledBits(parent, planes, mask, |planes|, p);
      InnerBox(child, parent, planes[p]);
    }
  }

  /** A box inside one that was not culled gets the same answer, from the same plane and with the same
      mask for its own children, from the mask its parent left as from the parent's own mask. */
  lemma ChildMaskKeepsTheAnswer(parent: AABox, child: AABox, planes: seq<Plane>, mask: nat)
    requires IsBox(child) && Inside(child, parent) && CullingPlane(parent, planes, mask, 0) == -1
    ensures var c := ChildMask(parent, planes, mask);
      && CullingPlane(child, planes, c, 0) == CullingPlane(child, planes, mask, 0)
      && ChildMask(child, planes, c) == ChildMask(child, planes, mask)
  {
    var c := ChildMask(parent, planes, mask);
    MaskIsEnough(parent, child, planes, mask);
    SameCullingPlane(child, planes, mask, c, 0);
    SameStraddled(child, planes, mask, c, |planes|);
  }

  lemma {:induction false} CullingPlaneCulls(b: AABox, planes: seq<Plane>, mask: nat, p: nat)
    requires p <= |planes|
    ensures var c := CullingPlane(b, planes, mask, p);
      && -1 <= c < |planes|
      && (c >= 0 ==> c >= p && Bit(mask, c) && AllOutside(b, planes[c]))
      && forall q :: p <= q < (if c >= 0 then c else |planes|) ==> !(Bit(mask, q) && AllOutside(b, planes[q]))
    decreases |planes| - p
  {
    if p < |planes| {
      CullingPlaneCulls(b, planes, mask, p + 1);
    }
  }

  lemma {:induction false} CulledByOnly(b: AABox, planes: seq<Plane>, c: nat, p: nat)
    requires p <= c < |planes| && AllOutside(b, planes[c])
    ensures CullingPlane(b, planes, Pow2(c), p) == c
    decreases c - p
  {
    OneBit(c, p);
    if p < c {
      CulledByOnly(b, planes, c, p + 1);
    }
  }

  /** A box inside one that was culled is culled by the mask its parent left, by the same plane. */
  lemma CulledParentCullsChild(parent: AABox, child: AABox, planes: seq<Plane>, mask: nat)
    requires IsBox(child) && Inside(child, parent) && CullingPlane(parent, planes, mask, 0) >= 0
    ensures CullingPlane(child, planes, ChildMask(parent, planes, mask), 0) == CullingPlane(parent, planes, mask, 0)
    ensures CullingPlane(child, planes, mask, 0) >= 0
  {
    var c := CullingPlane(parent, planes, mask, 0);
    CullingPlaneCulls(parent, planes, mask, 0);
    InnerBox(child, parent, planes[c]);
    CulledByOnly(child, planes, c, 0);
    CullingPlaneCulls(child, planes, mask, 0);
  }

  // ----- Hierarchies -----

  /** A bounding volume hierarchy: every box inside the one around it. */
  datatype Tree = Node(box: AABox, children: seq<Tree>)

  predicate Nested(t: Tree) {
    IsBox(t.box) && forall c :: c in t.children ==> Inside(c.box, t.box) && Nested(c)
  }

  /** The leaves that are not culled when every box is tested with the same mask. */
  function Visible(t: Tree, planes: seq<Plane>, mask: nat): seq<AABox>
    decreases t, |t.children| + 1
  {
    if CullingPlane(t.box, planes, mask, 0) >= 0 then []
    else if t.children == [] then [t.box]
    else VisibleBelow(t, planes, mask, 0)
  }

  function VisibleBelow(t: Tree, planes: seq<Plane>, mask: nat, i: nat): seq<AABox>
    requires i <= |t.children|
    decreases t, |t.children| - i
  {
    if i == |t.children| then []
    else Visible(t.children[i], planes, mask) + VisibleBelow(t, planes, mask, i + 1)
  }

  /** The same when every box hands the mask it leaves to its children. */
  function VisibleMasked(t: Tree, planes: seq<Plane>, mask: nat): seq<AABox>
    decreases t, |t.children| + 1
  {
    if CullingPlane(t.box, planes, mask, 0) >= 0 then []
    else if t.children == [] then [t.box]
    else VisibleMaskedBelow(t, planes, ChildMask(t.box, planes, mask), 0)
  }

  function VisibleMaskedBelow(t: Tree, planes: seq<Plane>, mask: nat, i: nat): seq<AABox>
    requires i <= |t.children|
    decreases t, |t.children| - i
  {
    if i == |t.children| then []
    else VisibleMasked(t.children[i], planes, mask) + VisibleMaskedBelow(t, planes, mask, i + 1)
  }

  lemma MasksAgreeInside(parent: AABox, child: AABox, planes: seq<Plane>, m: nat, n: nat)
    requires IsBox(child) && Inside(child, parent) && MasksAgree(parent, planes, m, n)
    requires CullingPlane(parent, planes, m, 0) == -1
    ensures MasksAgree(child, planes, ChildMask(parent, planes, m), n)
  {
    MaskIsEnough(parent, child, planes, m);
    forall p | 0 <= p < |planes| && Bit(m, p) != Bit(n, p) ensures AllInside(child, planes[p]) {
      InnerBox(child, parent, planes[p]);
    }
  }

  lemma {:induction false} MaskedIsPlain(t: Tree, planes: seq<Plane>, m: nat, n: nat)
    requires Nested(t) && MasksAgree(t.box, planes, m, n)
    ensures VisibleMasked(t, planes, m) == Visible(t, planes, n)
    decreases t, |t.children| + 1
  {
    SameCullingPlane(t.box, planes, m, n, 0);
    CullingPlaneCulls(t.box, planes, m, 0);
    if CullingPlane(t.box, planes, m, 0) < 0 && t.children != [] {
      MaskedIsPlainBelow(t, planes, m, n, 0);
    }
  }

  lemma {:induction false} MaskedIsPlainBelow(t: Tree, planes: seq<Plane>, m: nat, n: nat, i: nat)
    requires Nested(t) && MasksAgree(t.box, planes, m, n) && CullingPlane(t.box, planes, m, 0) == -1
    requires i <= |t.children|
    ensures VisibleMaskedBelow(t, planes, ChildMask(t.box, planes, m), i) == VisibleBelow(t, planes, n, i)
    decreases t, |t.children| - i
  {
    if i < |t.children| {
      var c := t.children[i];
      assert c in t.children;
      MasksAgreeInside(t.box, c.box, planes, m, n);
      MaskedIsPlain(c, planes, ChildMask(t.box, planes, m), n);
      MaskedIsPlainBelow(t, planes, m, n, i + 1);
    }
  }

  /** Masks only save work: a whole hierarchy shows the same leaves with them as without. */
  lemma MasksKeepTheScene(t: Tree, planes: seq<Plane>, mask: nat)
    requires Nested(t)
    ensures VisibleMasked(t, planes, mask) == Visible(t, planes, mask)
  {
    MaskedIsPlain(t, planes, mask, mask);
  }

  // ----- The tests -----

  predicate IsFinite(b: AABox) {
    && -INFINITE < b.lo.x < INFINITE && -INFINITE < b.hi.x < INFINITE
    && -INFINITE < b.lo.y < INFINITE && -INFINITE < b.hi.y < INFINITE
    && -INFINITE < b.lo.z < INFINITE && -INFINITE < b.hi.z < INFINITE
  }

  lemma FiniteTestIsTest(b: AABox, p: Plane, v: nat)
    requires IsBox(b) && IsFinite(b)
    ensures HalfSpaceContainsFinite(p, Corner(b, v)) == HalfSpaceContains(p, Corner(b, v))
  {
  }

  /** Corners on the positive side, counted until there is one on either side. */
  method CountContained(b: AABox, p: Plane, finite: bool) returns (numContained: nat, v: nat)
    requires IsBox(b) && finite == IsFinite(b)
    ensures numContained <= v <= 8
    ensures numContained == 0 <==> AllOutside(b, p)
    ensures numContained == v <==> AllInside(b, p)
  {
    numContained, v := 0, 0;
    while v < 8 && (numContained == v || numContained == 0)
      invariant numContained <= v <= 8
      invariant numContained == 0 <==> forall u :: 0 <= u < v ==> !HalfSpaceContains(p, Corner(b, u))
      invariant numContained == v <==> forall u :: 0 <= u < v ==> HalfSpaceContains(p, Corner(b, u))
    {
      var corner := Corner(b, v);
      var contained;
      if finite {
        FiniteTestIsTest(b, p, v);
        contained := HalfSpaceContainsFinite(p, corner);
      } else {
        contained := HalfSpaceContains(p, corner);
      }
      if contained {
        numContained := numContained + 1;
      }
      v := v + 1;
    }
  }

  lemma NextBit(mask: nat, p: nat)
    ensures mask / Pow2(p) / 2 == mask / Pow2(p + 1)
  {
    DivideTwice(mask, Pow2(p), 2);
  }

  /** The test that leaves a mask for the children of the box. */
  method CulledByWithChildMask(b: AABox, planes: seq<Plane>, mask: nat)
    returns (culled: bool, cullingPlane: int, childMask: nat)
    requires IsBox(b) && |planes| < 31
    ensures culled <==> cullingPlane >= 0
    ensures cullingPlane == CullingPlane(b, planes, mask, 0) && childMask == ChildMask(b, planes, mask)
  {
    var inMask := mask;
    childMask := 0;
    var finite := IsFinite(b);
    var p := 0;
    while p < |planes|
      invariant 0 <= p <= |planes| && inMask == mask / Pow2(p)
      invariant childMask == Straddled(b, planes, mask, p)
      invariant CullingPlane(b, planes, mask, 0) == CullingPlane(b, planes, mask, p)
    {
      if inMask % 2 != 0 {
        var numContained, v := CountContained(b, planes[p], finite);
        if numContained == 0 {
          return true, p, Pow2(p);
        } else if numContained < v {
          childMask := childMask + Pow2(p);
        }
      }
      NextBit(mask, p);
      inMask := inMask / 2;
      p := p + 1;
    }
    culled, cullingPlane := false, -1;
  }

  /** The test without a mask for children. */
  method CulledBy(b: AABox, planes: seq<Plane>, mask: nat) returns (isCulled: bool, cullingPlane: int)
    requires IsBox(b) && |planes| < 31
    ensures isCulled <==> cullingPlane >= 0
    ensures cullingPlane == CullingPlane(b, planes, mask, 0)
  {
    var inMask := mask;
    var finite := IsFinite(b);
    var p := 0;
    while p < |planes|
      invariant 0 <= p <= |planes| && inMask == mask / Pow2(p)
      invariant CullingPlane(b, planes, mask, 0) == CullingPlane(b, planes, mask, p)
    {
      if inMask % 2 != 0 {
        var culled := true;
        var v := 0;
        while v < 8 && culled
          invariant 0 <= v <= 8
          invariant culled <==> forall u :: 0 <= u < v ==> !HalfSpaceContains(planes[p], Corner(b, u))
        {
          if finite {
            FiniteTestIsTest(b, planes[p], v);
            culled := !HalfSpaceContainsFinite(planes[p], Corner(b, v));
          } else {
            culled := !HalfSpaceContains(planes[p], Corner(b, v));
          }
          v := v + 1;
        }
        if culled {
          return true, p;
        }
      }
      NextBit(mask, p);
      inMask := inMask / 2;
      p := p + 1;
    }
    isCulled, cullingPlane := false, -1;
  }
}
