/** The in-place Gauss-Jordan inverse with full pivoting of Matrix.cpp.

    While the algorithm runs, one square array stores two matrices at once: on
    the columns not yet pivoted, the reduced matrix; on the pivoted ones, the
    transform that reduces it. `Exchanged` says what the array means, in terms
    of the (row-permuted) input, without splitting it. */
module GaussJordan {
  import opened LinearAlgebra

  // ---- what the array means between two pivots

  /** Column j of the input side: the input where pivoted, minus the unit vector elsewhere. */
  ghost function InColumn(a: Mat, pivoted: seq<bool>, j: nat, n: nat): (v: Vec)
    requires IsSquare(a, n) && |pivoted| == n && j < n
    ensures |v| == n
  {
    seq(n, k requires 0 <= k < n => if pivoted[k] then a[k][j] else -Delta(k, j))
  }

  /** Entry i of column j of the output side: the unit vector where pivoted, minus the input elsewhere. */
  ghost function OutEntry(a: Mat, pivoted: seq<bool>, i: nat, j: nat, n: nat): real
    requires IsSquare(a, n) && |pivoted| == n && i < n && j < n
  {
    if pivoted[i] then Delta(i, j) else -a[i][j]
  }

  ghost predicate Exchanged(m: Mat, a: Mat, pivoted: seq<bool>, n: nat)
    requires IsSquare(m, n) && IsSquare(a, n) && |pivoted| == n
  {
    forall i, j :: 0 <= i < n && 0 <= j < n ==>
      Dot(m[i], InColumn(a, pivoted, j, n)) == OutEntry(a, pivoted, i, j, n)
  }

  /** Before the first pivot the array is the input itself. */
  lemma ExchangedAtStart(a: Mat, n: nat)
    requires IsSquare(a, n)
    ensures Exchanged(a, a, seq(n, _ => false), n)
  {
    var pivoted := seq(n, _ => false);
    forall i, j | 0 <= i < n && 0 <= j < n
      ensures Dot(a[i], InColumn(a, pivoted, j, n)) == OutEntry(a, pivoted, i, j, n)
    {
      DotUnit(a[i], InColumn(a, pivoted, j, n), j, -1.0);
    }
  }

  // ---- one pivot: the two steps and what they keep

  /** The pivot row after the division: the pivot cell itself receives the inverse. */
  function PivotRow(row: Vec, c: nat): (r: Vec)
    requires c < |row| && row[c] != 0.0
    ensures |r| == |row|
  {
    Scaled(row[c := 1.0], 1.0 / row[c])
  }

  /** Another row after the pivot row has been subtracted from it. */
  function ReducedRow(row: Vec, pivotRow: Vec, c: nat): (r: Vec)
    requires c < |row| == |pivotRow|
    ensures |r| == |row|
  {
    MinusScaled(row[c := 0.0], pivotRow, row[c])
  }

  function Eliminated(m: Mat, c: nat, n: nat): (r: Mat)
    requires |m| == n && forall i :: 0 <= i < n ==> |m[i]| == n
    requires c < n && m[c][c] != 0.0
    ensures |r| == n && forall i :: 0 <= i < n ==> |r[i]| == n
  {
    var pivotRow := PivotRow(m[c], c);
    seq(n, i requires 0 <= i < n => if i == c then pivotRow else ReducedRow(m[i], pivotRow, c))
  }

  /** Dividing the pivot row solves it for the pivoted unknown. */
  lemma {:induction false} PivotRowSolves(row: Vec, c: nat, x: Vec, x': Vec, out: real)
    requires c < |row| == |x| && row[c] != 0.0
    requires x' == x[c := -out]
    requires Dot(row, x) == out
    ensures Dot(PivotRow(row, c), x') == -x[c]
  {
    hide Dot;
    var unit, inv, z := row[c := 1.0], 1.0 / row[c], row[c] * x[c];
    DotUpdate(row, x, c, 1.0, -out, z, -out);
    DotScaled(PivotRow(row, c), unit, x', inv);
    DivideBack(row[c], x[c]);
  }

  lemma DivideBack(p: real, y: real)
    requires p != 0.0
    ensures 1.0 / p * -(p * y) == -y
  {
    assert 1.0 / p * p == 1.0;
    assert 1.0 / p * (p * y) == (1.0 / p * p) * y;
  }

  /** Subtracting the solved pivot row eliminates the pivoted unknown from any other row. */
  lemma ReducedRowEliminates(row: Vec, pivotRow: Vec, c: nat, x: Vec, x': Vec, y: real, out: real)
    requires c < |row| == |pivotRow| == |x|
    requires x' == x[c := y]
    requires Dot(pivotRow, x') == -x[c]
    requires Dot(row, x) == out
    ensures Dot(ReducedRow(row, pivotRow, c), x') == out
  {
    hide Dot;
    var cleared := row[c := 0.0];
    var s := row[c];
    var z := s * x[c];
    DotUpdate(row, x, c, 0.0, y, z, 0.0);
    assert Dot(cleared, x') == out - z;
    DotMinusScaled(ReducedRow(row, pivotRow, c), cleared, pivotRow, x', s);
    assert s * -x[c] == -z;
  }

  lemma EliminationKeepsExchanged(m: Mat, a: Mat, pivoted: seq<bool>, c: nat, n: nat)
    requires IsSquare(m, n) && IsSquare(a, n) && |pivoted| == n && c < n
    requires !pivoted[c] && m[c][c] != 0.0
    requires Exchanged(m, a, pivoted, n)
    ensures Exchanged(Eliminated(m, c, n), a, pivoted[c := true], n)
  {
    var pivotRow, m', pivoted' := PivotRow(m[c], c), Eliminated(m, c, n), pivoted[c := true];
    forall i, j | 0 <= i < n && 0 <= j < n
      ensures Dot(m'[i], InColumn(a, pivoted', j, n)) == OutEntry(a, pivoted', i, j, n)
    {
      var x, x' := InColumn(a, pivoted, j, n), InColumn(a, pivoted', j, n);
      var out := OutEntry(a, pivoted, c, j, n);
      assert x' == x[c := -out];
      PivotRowSolves(m[c], c, x, x', out);
      if i != c {
        ReducedRowEliminates(m[i], pivotRow, c, x, x', -out, OutEntry(a, pivoted, i, j, n));
      }
    }
  }

  /** Swapping two unpivoted rows of the array is swapping them in the input. */
  lemma RowSwapKeepsExchanged(m: Mat, a: Mat, pivoted: seq<bool>, r: nat, c: nat, n: nat)
    requires IsSquare(m, n) && IsSquare(a, n) && |pivoted| == n && r < n && c < n
    requires !pivoted[r] && !pivoted[c]
    requires Exchanged(m, a, pivoted, n)
    ensures Exchanged(Swap(m, r, c), Swap(a, r, c), pivoted, n)
  {
    forall i, j | 0 <= i < n && 0 <= j < n
      ensures Dot(Swap(m, r, c)[i], InColumn(Swap(a, r, c), pivoted, j, n))
           == OutEntry(Swap(a, r, c), pivoted, i, j, n)
    {
      assert InColumn(Swap(a, r, c), pivoted, j, n) == InColumn(a, pivoted, j, n);
    }
  }

  // ---- how a run ends

  /** Once every column is pivoted the array holds the inverse of the permuted input. */
  lemma AllPivotedIsInverse(m: Mat, a: Mat, pivoted: seq<bool>, n: nat)
    requires IsSquare(m, n) && IsSquare(a, n) && |pivoted| == n
    requires forall k :: 0 <= k < n ==> pivoted[k]
    requires Exchanged(m, a, pivoted, n)
    ensures IsLeftInverse(m, a, n)
  {
    forall i, j | 0 <= i < n && 0 <= j < n
      ensures Dot(m[i], Col(a, j)) == Delta(i, j)
    {
      assert Col(a, j) == InColumn(a, pivoted, j, n);
    }
  }

  /** Swapping columns of the inverse undoes a row swap of the matrix. */
  lemma ColumnSwapUndoesRowSwap(m: Mat, a: Mat, r: nat, c: nat, n: nat)
    requires IsSquare(m, n) && IsSquare(a, n) && r < n && c < n && r != c
    requires IsLeftInverse(m, Swap(a, r, c), n)
    ensures IsLeftInverse(SwapColumns(m, r, c), a, n)
  {
    forall i, j | 0 <= i < n && 0 <= j < n
      ensures Dot(SwapColumns(m, r, c)[i], Col(a, j)) == Delta(i, j)
    {
      DotSwap(m[i], Col(Swap(a, r, c), j), r, c);
      assert Swap(Col(Swap(a, r, c), j), r, c) == Col(a, j);
    }
  }

  lemma RowSwapKeepsSingular(a: Mat, r: nat, c: nat, n: nat)
    requires IsSquare(a, n) && r < n && c < n && r != c
    requires Singular(Swap(a, r, c), n)
    ensures Singular(a, n)
  {
    var w :| IsLeftNull(w, Swap(a, r, c), n);
    var v := Swap(w, r, c);
    forall j | 0 <= j < n ensures Dot(v, Col(a, j)) == 0.0 {
      DotSwap(w, Col(Swap(a, r, c), j), r, c);
      assert Swap(Col(Swap(a, r, c), j), r, c) == Col(a, j);
    }
    var i :| 0 <= i < n && w[i] != 0.0;
    assert v[if i == r then c else if i == c then r else i] != 0.0;
    assert IsLeftNull(v, a, n);
  }

  /** An unpivoted row that is zero on every unpivoted column makes the input singular. */
  lemma ZeroRowIsSingular(m: Mat, a: Mat, pivoted: seq<bool>, r: nat, n: nat)
    requires IsSquare(m, n) && IsSquare(a, n) && |pivoted| == n && r < n
    requires Exchanged(m, a, pivoted, n)
    requires !pivoted[r]
    requires forall k :: 0 <= k < n && !pivoted[k] ==> m[r][k] == 0.0
    ensures Singular(a, n)
  {
    var w := m[r][r := 1.0];
    forall j | 0 <= j < n ensures Dot(w, Col(a, j)) == 0.0 {
      var y, x := Col(a, j), InColumn(a, pivoted, j, n);
      DotAgree(m[r], x, y);
      DotUpdate(m[r], y, r, 1.0, y[r], 0.0, y[r]);
      assert y[r := y[r]] == y;
    }
    assert w[r] != 0.0;
    assert IsLeftNull(w, a, n);
  }

  // ---- singular, invertible, and the two sides of an inverse

  /** From any state between two pivots, elimination ends in one of the two answers. */
  lemma {:induction false} InverseOrSingularFrom(m: Mat, a: Mat, pivoted: seq<bool>, n: nat)
    requires IsSquare(m, n) && IsSquare(a, n) && |pivoted| == n
    requires Exchanged(m, a, pivoted, n)
    ensures Singular(a, n) || exists inv :: IsSquare(inv, n) && IsLeftInverse(inv, a, n)
    decreases multiset(pivoted)[false]
  {
    if r, c :| 0 <= r < n && 0 <= c < n && !pivoted[r] && !pivoted[c] && m[r][c] != 0.0 {
      var m1, a1 := if r == c then m else Swap(m, r, c), if r == c then a else Swap(a, r, c);
      if r != c {
        RowSwapKeepsExchanged(m, a, pivoted, r, c, n);
      }
      EliminationKeepsExchanged(m1, a1, pivoted, c, n);
      InverseOrSingularFrom(Eliminated(m1, c, n), a1, pivoted[c := true], n);
      if r != c {
        if Singular(a1, n) {
          RowSwapKeepsSingular(a, r, c, n);
        } else {
          var inv :| IsSquare(inv, n) && IsLeftInverse(inv, a1, n);
          ColumnSwapUndoesRowSwap(inv, a, r, c, n);
          assert IsSquare(SwapColumns(inv, r, c), n);
        }
      }
    } else if r :| 0 <= r < n && !pivoted[r] {
      ZeroRowIsSingular(m, a, pivoted, r, n);
    } else {
      AllPivotedIsInverse(m, a, pivoted, n);
    }
  }

  lemma InverseOrSingular(a: Mat, n: nat)
    requires IsSquare(a, n)
    ensures Singular(a, n) || exists inv :: IsSquare(inv, n) && IsLeftInverse(inv, a, n)
  {
    ExchangedAtStart(a, n);
    InverseOrSingularFrom(a, a, seq(n, _ => false), n);
  }

  /** A left inverse of a square matrix is its inverse on both sides, and there is only one. */
  lemma LeftInverseIsInverse(m: Mat, a: Mat, n: nat)
    requires IsSquare(m, n) && IsSquare(a, n)
    requires IsLeftInverse(m, a, n)
    ensures IsLeftInverse(a, m, n)
    ensures !Singular(a, n)
    ensures forall inv :: IsSquare(inv, n) && IsLeftInverse(inv, a, n) ==> inv == m
  {
    RightInverseIsNotSingular(m, a, n);
    InverseOrSingular(m, n);
    var l :| IsSquare(l, n) && IsLeftInverse(l, m, n);
    InversesMeet(l, m, a, n);
    RightInverseIsNotSingular(a, m, n);
    forall inv | IsSquare(inv, n) && IsLeftInverse(inv, a, n) ensures inv == m {
      InversesMeet(inv, a, m, n);
    }
  }
}
