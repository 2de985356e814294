/** Dot products, matrix products and permutations over exact reals, as far as
    the in-place inverse of Matrix.cpp needs them. */
module LinearAlgebra {

  type Vec = seq<real>
  type Mat = seq<Vec>

  ghost predicate IsSquare(m: Mat, n: nat) {
    |m| == n && forall i :: 0 <= i < n ==> |m[i]| == n
  }

  function Dot(a: Vec, b: Vec): real
    requires |a| == |b|
  {
    if a == [] then 0.0 else a[0] * b[0] + Dot(a[1..], b[1..])
  }

  /** The j-th column of m. */
  function Col(m: Mat, j: nat): (c: Vec)
    requires forall i :: 0 <= i < |m| ==> j < |m[i]|
  {
    seq(|m|, i requires 0 <= i < |m| => m[i][j])
  }

  function Delta(i: int, j: int): real {
    if i == j then 1.0 else 0.0
  }

  /** m * a is the identity. */
  ghost predicate IsLeftInverse(m: Mat, a: Mat, n: nat)
    requires IsSquare(m, n) && IsSquare(a, n)
  {
    forall i, j :: 0 <= i < n && 0 <= j < n ==> Dot(m[i], Col(a, j)) == Delta(i, j)
  }

  /** A nonzero row vector that a maps to zero. */
  ghost predicate IsLeftNull(w: Vec, a: Mat, n: nat)
    requires IsSquare(a, n)
  {
    && |w| == n
    && (exists i :: 0 <= i < n && w[i] != 0.0)
    && forall j :: 0 <= j < n ==> Dot(w, Col(a, j)) == 0.0
  }

  ghost predicate Singular(a: Mat, n: nat)
    requires IsSquare(a, n)
  {
    exists w :: IsLeftNull(w, a, n)
  }

  function Swap<T>(s: seq<T>, i: nat, j: nat): (r: seq<T>)
    requires i < |s| && j < |s|
    ensures |r| == |s|
    ensures r[i] == s[j] && r[j] == s[i]
    ensures forall k :: 0 <= k < |s| && k != i && k != j ==> r[k] == s[k]
  {
    s[i := s[j]][j := s[i]]
  }

  function SwapColumns(m: Mat, i: nat, j: nat): (r: Mat)
    requires forall k :: 0 <= k < |m| ==> i < |m[k]| && j < |m[k]|
    ensures |r| == |m|
  {
    seq(|m|, k requires 0 <= k < |m| => Swap(m[k], i, j))
  }

  // ---- algebra of dot products

  /** A dot product changes by exactly the replaced term: p goes, q comes. */
  lemma {:induction false} DotUpdate(a: Vec, b: Vec, k: nat, x: real, y: real, p: real, q: real)
    requires |a| == |b| && k < |a|
    requires p == a[k] * b[k] && q == x * y
    ensures Dot(a[k := x], b[k := y]) == Dot(a, b) - p + q
  {
    if k == 0 {
      assert a[0 := x][1..] == a[1..] && b[0 := y][1..] == b[1..];
    } else {
      assert a[k := x][1..] == a[1..][k - 1 := x] && b[k := y][1..] == b[1..][k - 1 := y];
      DotUpdate(a[1..], b[1..], k - 1, x, y, p, q);
    }
  }

  lemma {:induction false} DotSwap(a: Vec, b: Vec, i: nat, j: nat)
    requires |a| == |b| && i < |a| && j < |a| && i != j
    ensures Dot(Swap(a, i, j), Swap(b, i, j)) == Dot(a, b)
  {
    var p, q := a[i] * b[i], a[j] * b[j];
    DotUpdate(a, b, i, a[j], b[j], p, q);
    DotUpdate(a[i := a[j]], b[i := b[j]], j, a[i], b[i], q, p);
  }

  function Scaled(a: Vec, s: real): (c: Vec)
    ensures |c| == |a|
    ensures forall k :: 0 <= k < |a| ==> c[k] == a[k] * s
  {
    seq(|a|, k requires 0 <= k < |a| => a[k] * s)
  }

  function MinusScaled(a: Vec, p: Vec, s: real): (c: Vec)
    requires |a| == |p|
    ensures |c| == |a|
    ensures forall k :: 0 <= k < |a| ==> c[k] == a[k] - p[k] * s
  {
    seq(|a|, k requires 0 <= k < |a| => a[k] - p[k] * s)
  }

  lemma {:induction false} DotScaled(c: Vec, a: Vec, b: Vec, s: real)
    requires |c| == |a| == |b|
    requires forall k :: 0 <= k < |a| ==> c[k] == a[k] * s
    ensures Dot(c, b) == s * Dot(a, b)
  {
    if a != [] {
      DotScaled(c[1..], a[1..], b[1..], s);
      var x, z := a[0], b[0];
      assert (x * s) * z == s * (x * z);
      assert s * (x * z + Dot(a[1..], b[1..])) == s * (x * z) + s * Dot(a[1..], b[1..]);
    }
  }

  /** Linearity in the first argument. */
  lemma {:induction false} DotMinusScaled(c: Vec, a: Vec, p: Vec, b: Vec, s: real)
    requires |c| == |a| == |p| == |b|
    requires forall k :: 0 <= k < |a| ==> c[k] == a[k] - p[k] * s
    ensures Dot(c, b) == Dot(a, b) - s * Dot(p, b)
  {
    if a != [] {
      DotMinusScaled(c[1..], a[1..], p[1..], b[1..], s);
      var x, y, z := a[0], p[0], b[0];
      assert (x - y * s) * z == x * z - s * (y * z);
      assert s * (y * z + Dot(p[1..], b[1..])) == s * (y * z) + s * Dot(p[1..], b[1..]);
    }
  }

  /** Only positions where the first vector is nonzero matter. */
  lemma {:induction false} DotAgree(a: Vec, b: Vec, c: Vec)
    requires |a| == |b| == |c|
    requires forall k :: 0 <= k < |a| ==> a[k] == 0.0 || b[k] == c[k]
    ensures Dot(a, b) == Dot(a, c)
  {
    if a != [] {
      DotAgree(a[1..], b[1..], c[1..]);
    }
  }

  /** Accumulating term by term from the front computes the dot product. */
  lemma {:induction false} DotSnoc(a: Vec, b: Vec, i: nat)
    requires |a| == |b| && i < |a|
    ensures Dot(a[..i + 1], b[..i + 1]) == Dot(a[..i], b[..i]) + a[i] * b[i]
  {
    if i > 0 {
      DotSnoc(a[1..], b[1..], i - 1);
      assert a[..i + 1][1..] == a[1..][..i] && b[..i + 1][1..] == b[1..][..i];
      assert a[..i][1..] == a[1..][..i - 1] && b[..i][1..] == b[1..][..i - 1];
    }
  }

  lemma {:induction false} DotZero(a: Vec, b: Vec)
    requires |a| == |b|
    requires forall k :: 0 <= k < |a| ==> b[k] == 0.0
    ensures Dot(a, b) == 0.0
  {
    if a != [] {
      DotZero(a[1..], b[1..]);
    }
  }

  lemma {:induction false} DotCommutes(a: Vec, b: Vec)
    requires |a| == |b|
    ensures Dot(a, b) == Dot(b, a)
  {
    if a != [] {
      DotCommutes(a[1..], b[1..]);
    }
  }

  /** A dot product with a multiple of a unit vector picks one term. */
  lemma DotUnit(a: Vec, e: Vec, j: nat, s: real)
    requires |a| == |e| && j < |a|
    requires forall k :: 0 <= k < |a| ==> e[k] == s * Delta(k, j)
    ensures Dot(a, e) == a[j] * s
  {
    var z := e[j := 0.0];
    DotUpdate(a, e, j, a[j], 0.0, a[j] * s, 0.0);
    assert a[j := a[j]] == a;
    assert Dot(a, z) == 0.0 by {
      DotZero(a, z);
    }
    assert e[j] == s;
  }

  // ---- products

  /** The row vector w * a. */
  function RowTimes(w: Vec, a: Mat, n: nat): (r: Vec)
    requires |a| == |w| && forall i :: 0 <= i < |a| ==> |a[i]| == n
  {
    seq(n, j requires 0 <= j < n => Dot(w, Col(a, j)))
  }

  /** The column vector a * c. */
  function TimesColumn(a: Mat, c: Vec): (r: Vec)
    requires forall i :: 0 <= i < |a| ==> |a[i]| == |c|
  {
    seq(|a|, i requires 0 <= i < |a| => Dot(a[i], c))
  }

  lemma RowTimesTail(w: Vec, a: Mat, n: nat)
    requires |a| == |w| > 0 && forall i :: 0 <= i < |a| ==> |a[i]| == n
    ensures |RowTimes(w, a, n)| == |RowTimes(w[1..], a[1..], n)| == n
    ensures forall j :: 0 <= j < n ==> RowTimes(w, a, n)[j] == RowTimes(w[1..], a[1..], n)[j] - a[0][j] * -w[0]
  {
    forall j | 0 <= j < n ensures RowTimes(w, a, n)[j] == RowTimes(w[1..], a[1..], n)[j] - a[0][j] * -w[0] {
      assert Col(a, j)[1..] == Col(a[1..], j);
    }
  }

  /** (w * a) * c == w * (a * c). */
  lemma {:induction false} ProductAssociates(w: Vec, a: Mat, c: Vec)
    requires |a| == |w| && forall i :: 0 <= i < |a| ==> |a[i]| == |c|
    ensures Dot(RowTimes(w, a, |c|), c) == Dot(w, TimesColumn(a, c))
  {
    hide Dot, TimesColumn, Col;
    var wa := RowTimes(w, a, |c|);
    if w == [] {
      EmptyProduct(w, a, c);
    } else {
      var tail := RowTimes(w[1..], a[1..], |c|);
      ProductAssociates(w[1..], a[1..], c);
      RowTimesTail(w, a, |c|);
      DotMinusScaled(wa, tail, a[0], c, -w[0]);
      FirstOfColumn(w, a, c);
      Subtracted(Dot(tail, c), w[0], Dot(a[0], c));
    }
  }

  lemma EmptyProduct(w: Vec, a: Mat, c: Vec)
    requires |a| == |w| == 0
    ensures Dot(RowTimes(w, a, |c|), c) == 0.0 && Dot(w, TimesColumn(a, c)) == 0.0
  {
    var wa := RowTimes(w, a, |c|);
    DotZero(c, wa);
    DotCommutes(c, wa);
  }

  lemma {:induction false} FirstOfColumn(w: Vec, a: Mat, c: Vec)
    requires |a| == |w| > 0 && forall i :: 0 <= i < |a| ==> |a[i]| == |c|
    ensures Dot(w, TimesColumn(a, c)) == w[0] * Dot(a[0], c) + Dot(w[1..], TimesColumn(a[1..], c))
  {
    assert TimesColumn(a, c)[1..] == TimesColumn(a[1..], c);
  }

  lemma Subtracted(x: real, y: real, z: real)
    ensures x - (-y) * z == y * z + x
  {
  }

  /** A right inverse rules out a left null vector. */
  lemma RightInverseIsNotSingular(a: Mat, m: Mat, n: nat)
    requires IsSquare(a, n) && IsSquare(m, n)
    requires IsLeftInverse(a, m, n)
    ensures !Singular(a, n)
  {
    if Singular(a, n) {
      var w :| IsLeftNull(w, a, n);
      var j :| 0 <= j < n && w[j] != 0.0;
      var c, wa := Col(m, j), RowTimes(w, a, n);
      ProductAssociates(w, a, c);
      DotUnit(w, TimesColumn(a, c), j, 1.0);
      DotZero(c, wa);
      DotCommutes(c, wa);
      assert false;
    }
  }

  /** If l * m and m * a are both the identity then l is a. */
  lemma InversesMeet(l: Mat, m: Mat, a: Mat, n: nat)
    requires IsSquare(l, n) && IsSquare(m, n) && IsSquare(a, n)
    requires IsLeftInverse(l, m, n) && IsLeftInverse(m, a, n)
    ensures l == a
  {
    forall i, j | 0 <= i < n && 0 <= j < n ensures l[i][j] == a[i][j] {
      var c := Col(a, j);
      ProductAssociates(l[i], m, c);
      DotUnit(l[i], TimesColumn(m, c), j, 1.0);
      var lm := RowTimes(l[i], m, n);
      DotUnit(c, lm, i, 1.0);
      DotCommutes(c, lm);
    }
    assert forall i :: 0 <= i < n ==> l[i] == a[i];
  }
}
