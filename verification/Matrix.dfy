/** Matrix::Impl: a row-pointer matrix, its product, and the in-place inverse. */
module Matrix {
  import opened LinearAlgebra
  import opened GaussJordan

  const NO_PIVOT := -1

  function Magnitude(x: real): real {
    if x < 0.0 then -x else x
  }

  /** The input after the i-th recorded row swap. */
  ghost function RowSwapped(a: Mat, r: nat, c: nat): (a': Mat)
    requires r < |a| && c < |a|
  {
    if r == c then a else Swap(a, r, c)
  }

  /** history[i] is the input after the first i recorded row swaps. */
  ghost predicate IsSwapHistory(history: seq<Mat>, rows: seq<nat>, cols: seq<nat>, n: nat) {
    && |history| == |rows| + 1 == |cols| + 1
    && (forall i :: 0 <= i < |history| ==> IsSquare(history[i], n))
    && forall i :: 0 <= i < |rows| ==>
      rows[i] < n && cols[i] < n && history[i + 1] == RowSwapped(history[i], rows[i], cols[i])
  }

  lemma SwapHistoryGrows(history: seq<Mat>, rows: seq<nat>, cols: seq<nat>, n: nat, row: nat, col: nat)
    requires IsSwapHistory(history, rows, cols, n) && row < n && col < n
    ensures var a := RowSwapped(history[|rows|], row, col);
      IsSwapHistory(history + [a], rows + [row], cols + [col], n)
  {
  }

  class Impl {
    const R: nat
    const C: nat
    const elt: array2<real>

    constructor (rows: nat, cols: nat)
      ensures Valid() && R == rows && C == cols && fresh(elt)
    {
      R, C, elt := rows, cols, new real[rows, cols];
    }

    ghost predicate Valid() {
      elt.Length0 == R && elt.Length1 == C
    }

    /** The abstract matrix: a sequence of rows. */
    ghost function Contents(): (m: Mat)
      requires Valid()
      reads elt
      ensures |m| == R && forall i :: 0 <= i < R ==> |m[i]| == C
      ensures forall i, j :: 0 <= i < R && 0 <= j < C ==> m[i][j] == elt[i, j]
    {
      seq(R, i requires 0 <= i < R && Valid() reads elt =>
        seq(C, j requires 0 <= j < C && 0 <= i < R && Valid() reads elt => elt[i, j]))
    }

    /** Entry (r, c) of the product: the innermost loop of mul. */
    method ProductEntry(b: Impl, r: nat, c: nat) returns (sum: real)
      requires Valid() && b.Valid() && C == b.R && r < R && c < b.C
      ensures sum == Dot(Contents()[r], Col(b.Contents(), c))
    {
      ghost var row, column := Contents()[r], Col(b.Contents(), c);
      sum := 0.0;
      for i := 0 to C
        invariant sum == Dot(row[..i], column[..i])
      {
        DotSnoc(row, column, i);
        sum := sum + elt[r, i] * b.elt[i, c];
      }
      assert row[..C] == row && column[..C] == column;
    }

    /** The product of this matrix and b, written into out. */
    method Mul(b: Impl, out: Impl)
      requires Valid() && b.Valid() && out.Valid()
      requires C == b.R && R == out.R && b.C == out.C
      requires elt != out.elt && b.elt != out.elt
      modifies out.elt
      ensures forall r, c :: 0 <= r < R && 0 <= c < b.C ==>
        out.Contents()[r][c] == Dot(Contents()[r], Col(b.Contents(), c))
    {
      hide Dot;
      ghost var m, mb := Contents(), b.Contents();
      for r := 0 to out.R
        invariant Contents() == m && b.Contents() == mb
        invariant forall i, k :: 0 <= i < r && 0 <= k < b.C ==> out.elt[i, k] == Dot(m[i], Col(mb, k))
      {
        for c := 0 to out.C
          invariant Contents() == m && b.Contents() == mb
          invariant forall i, k :: 0 <= i < r && 0 <= k < b.C ==> out.elt[i, k] == Dot(m[i], Col(mb, k))
          invariant forall k :: 0 <= k < c ==> out.elt[r, k] == Dot(m[r], Col(mb, k))
        {
          var sum := ProductEntry(b, r, c);
          out.elt[r, c] := sum;
        }
      }
    }

    /** The entry of largest magnitude whose row and column are both unpivoted. */
    method FindPivot(pivot: seq<int>) returns (row: nat, col: nat)
      requires Valid() && R == C == |pivot|
      requires forall k :: 0 <= k < R ==> pivot[k] == NO_PIVOT || pivot[k] == 0
      requires exists k :: 0 <= k < R && pivot[k] == NO_PIVOT
      ensures row < R && col < R && pivot[row] == NO_PIVOT && pivot[col] == NO_PIVOT
      ensures forall r, k :: 0 <= r < R && 0 <= k < R && pivot[r] == NO_PIVOT && pivot[k] == NO_PIVOT ==>
        Magnitude(elt[r, k]) <= Magnitude(elt[row, col])
    {
      var largestMagnitude := 0.0;
      ghost var found := false;
      row, col := 0, 0;
      for r := 0 to R
        invariant found || (largestMagnitude == 0.0 && forall i :: 0 <= i < r ==> pivot[i] == 0)
        invariant found ==> row < R && col < R && pivot[row] == NO_PIVOT && pivot[col] == NO_PIVOT
        invariant found ==> largestMagnitude == Magnitude(elt[row, col])
        invariant forall i, j :: 0 <= i < r && 0 <= j < R && pivot[i] == NO_PIVOT && pivot[j] == NO_PIVOT ==>
          Magnitude(elt[i, j]) <= largestMagnitude
      {
        if pivot[r] != 0 {
          for k := 0 to R
            invariant found || (largestMagnitude == 0.0 && forall j :: 0 <= j < k ==> pivot[j] == 0)
            invariant found ==> row < R && col < R && pivot[row] == NO_PIVOT && pivot[col] == NO_PIVOT
            invariant found ==> largestMagnitude == Magnitude(elt[row, col])
            invariant forall i, j :: 0 <= i < r && 0 <= j < R && pivot[i] == NO_PIVOT && pivot[j] == NO_PIVOT ==>
              Magnitude(elt[i, j]) <= largestMagnitude
            invariant forall j :: 0 <= j < k && pivot[j] == NO_PIVOT ==> Magnitude(elt[r, j]) <= largestMagnitude
          {
            if pivot[k] == NO_PIVOT {
              var mag := Magnitude(elt[r, k]);
              if mag >= largestMagnitude {
                largestMagnitude := mag;
                row, col := r, k;
                found := true;
              }
            }
          }
        }
      }
    }

    method SwapRows(row: nat, col: nat)
      requires Valid() && row < R && col < R && row != col
      modifies elt
      ensures Contents() == Swap(old(Contents()), row, col)
    {
      for k := 0 to C
        invariant forall i, j :: 0 <= i < R && 0 <= j < C ==>
          elt[i, j] == (if j < k then Swap(old(Contents()), row, col) else old(Contents()))[i][j]
      {
        elt[row, k], elt[col, k] := elt[col, k], elt[row, k];
      }
      assert forall i :: 0 <= i < R ==> Contents()[i] == Swap(old(Contents()), row, col)[i];
    }

    method SwapColumnsInPlace(c0: nat, c1: nat)
      requires Valid() && c0 < C && c1 < C && c0 != c1
      modifies elt
      ensures Contents() == SwapColumns(old(Contents()), c0, c1)
    {
      for k := 0 to R
        invariant forall i, j :: 0 <= i < R && 0 <= j < C ==>
          elt[i, j] == (if i < k then SwapColumns(old(Contents()), c0, c1) else old(Contents()))[i][j]
      {
        elt[k, c0], elt[k, c1] := elt[k, c1], elt[k, c0];
      }
      assert forall i :: 0 <= i < R ==> Contents()[i] == SwapColumns(old(Contents()), c0, c1)[i];
    }

    /** Divides row c by its pivot, the pivot cell taking the inverse. */
    method DividePivotRow(c: nat)
      requires Valid() && R == C && c < R && elt[c, c] != 0.0
      modifies elt
      ensures Contents() == old(Contents())[c := PivotRow(old(Contents())[c], c)]
    {
      var pivotInverse := 1.0 / elt[c, c];
      elt[c, c] := 1.0;
      ghost var row := old(Contents())[c][c := 1.0];
      ghost var target := Scaled(row, pivotInverse);
      for k := 0 to R
        invariant forall j :: 0 <= j < R ==> elt[c, j] == (if j < k then target else row)[j]
        invariant forall i, j :: 0 <= i < R && 0 <= j < R && i != c ==> elt[i, j] == old(elt[i, j])
      {
        assert target[k] == row[k] * pivotInverse;
        elt[c, k] := elt[c, k] * pivotInverse;
      }
      assert Contents()[c] == target == PivotRow(old(Contents())[c], c);
      assert forall i :: 0 <= i < R && i != c ==> Contents()[i] == old(Contents())[i];
    }

    /** Subtracts from row r the multiple of row c that clears column c. */
    method ReduceRow(r: nat, c: nat)
      requires Valid() && R == C && r < R && c < R && r != c
      modifies elt
      ensures Contents() == old(Contents())[r := ReducedRow(old(Contents())[r], old(Contents())[c], c)]
    {
      var oldValue := elt[r, c];
      elt[r, c] := 0.0;
      ghost var row, pivotRow := old(Contents())[r][c := 0.0], old(Contents())[c];
      ghost var target := MinusScaled(row, pivotRow, oldValue);
      for k := 0 to R
        invariant forall j :: 0 <= j < R ==> elt[r, j] == (if j < k then target else row)[j]
        invariant forall i, j :: 0 <= i < R && 0 <= j < R && i != r ==> elt[i, j] == old(elt[i, j])
      {
        assert target[k] == row[k] - pivotRow[k] * oldValue;
        elt[r, k] := elt[r, k] - elt[c, k] * oldValue;
      }
      assert Contents()[r] == target == ReducedRow(old(Contents())[r], old(Contents())[c], c);
      assert forall i :: 0 <= i < R && i != r ==> Contents()[i] == old(Contents())[i];
    }

    method Eliminate(c: nat)
      requires Valid() && R == C && c < R && elt[c, c] != 0.0
      modifies elt
      ensures Contents() == Eliminated(old(Contents()), c, R)
    {
      ghost var m := Contents();
      DividePivotRow(c);
      ghost var divided, target := Contents(), Eliminated(m, c, R);
      for r := 0 to R
        invariant forall i :: 0 <= i < R ==> Contents()[i] == if i < r then target[i] else divided[i]
      {
        if r != c {
          ReduceRow(r, c);
        }
      }
      assert forall i :: 0 <= i < R ==> Contents()[i] == target[i];
    }

    /** One turn of the main loop: choose a pivot, bring it to the diagonal and
        eliminate. Fails exactly where the source asserts that the pivot is nonzero. */
    method PivotStep(pivot: seq<int>, ghost pivoted: seq<bool>, ghost a: Mat)
      returns (ok: bool, row: nat, col: nat)
      requires Valid() && R == C == |pivot| == |pivoted| && IsSquare(a, R)
      requires forall k :: 0 <= k < R ==> pivot[k] == if pivoted[k] then 0 else NO_PIVOT
      requires exists k :: 0 <= k < R && !pivoted[k]
      requires Exchanged(Contents(), a, pivoted, R)
      modifies elt
      ensures row < R && col < R && !pivoted[row] && !pivoted[col]
      ensures Singular(RowSwapped(a, row, col), R) ==> Singular(a, R)
      ensures ok ==> Exchanged(Contents(), RowSwapped(a, row, col), pivoted[col := true], R)
      ensures !ok ==> Singular(a, R)
    {
      ghost var m := Contents();
      row, col := FindPivot(pivot);
      ghost var a' := RowSwapped(a, row, col);
      if row != col {
        RowSwapKeepsExchanged(m, a, pivoted, row, col, R);
        SwapRows(row, col);
        if Singular(a', R) {
          RowSwapKeepsSingular(a, row, col, R);
        }
      }
      var piv := elt[col, col];
      ok := piv != 0.0;
      if ok {
        EliminationKeepsExchanged(Contents(), a', pivoted, col, R);
        Eliminate(col);
      } else {
        assert m[row][col] == 0.0;
        ZeroRowIsSingular(m, a, pivoted, row, R);
      }
    }

    /** Undoes the row swaps by column swaps, last one first. */
    method UndoRowSwaps(rowIndex: seq<nat>, colIndex: seq<nat>, ghost history: seq<Mat>)
      requires Valid() && R == C == |rowIndex|
      requires IsSwapHistory(history, rowIndex, colIndex, R)
      requires IsLeftInverse(Contents(), history[R], R)
      modifies elt
      ensures IsLeftInverse(Contents(), history[0], R)
    {
      var i := R - 1;
      while i >= 0
        invariant -1 <= i < R
        invariant IsLeftInverse(Contents(), history[i + 1], R)
      {
        if rowIndex[i] != colIndex[i] {
          ColumnSwapUndoesRowSwap(Contents(), history[i], rowIndex[i], colIndex[i], R);
          SwapColumnsInPlace(rowIndex[i], colIndex[i]);
        }
        i := i - 1;
      }
    }

    /** The main loop: one pivot per column. */
    method ReduceColumns() returns (ok: bool, rowIndex: seq<nat>, colIndex: seq<nat>, ghost history: seq<Mat>)
      requires Valid() && R == C
      modifies elt
      ensures !ok ==> Singular(old(Contents()), R)
      ensures ok ==> |rowIndex| == R && IsSwapHistory(history, rowIndex, colIndex, R)
      ensures ok ==> history[0] == old(Contents()) && IsLeftInverse(Contents(), history[R], R)
    {
      hide Exchanged, Singular, IsLeftInverse, RowSwapped;
      ghost var a := Contents();
      history := [a];
      var pivot := seq(R, _ => NO_PIVOT);
      rowIndex, colIndex := [], [];
      ghost var pivoted := seq(R, _ => false);
      ExchangedAtStart(a, R);
      NonePivoted(R);

      for c := 0 to R
        invariant |rowIndex| == c && IsSwapHistory(history, rowIndex, colIndex, R)
        invariant history[0] == old(Contents()) && history[c] == a
        invariant |pivot| == R && |pivoted| == R && multiset(pivoted)[false] == R - c
        invariant forall k :: 0 <= k < R ==> pivot[k] == if pivoted[k] then 0 else NO_PIVOT
        invariant Singular(a, R) ==> Singular(old(Contents()), R)
        invariant Exchanged(Contents(), a, pivoted, R)
      {
        SomeUnpivoted(pivoted);
        var pivotFound, row, col := PivotStep(pivot, pivoted, a);
        if !pivotFound {
          return false, rowIndex, colIndex, history;
        }
        pivot := pivot[col := pivot[col] + 1];
        SwapHistoryGrows(history, rowIndex, colIndex, R, row, col);
        rowIndex, colIndex := rowIndex + [row], colIndex + [col];
        a, pivoted := RowSwapped(a, row, col), pivoted[col := true];
        history := history + [a];
      }
      AllPivoted(pivoted);
      AllPivotedIsInverse(Contents(), a, pivoted, R);
      ok := true;
    }

    /** Replaces the matrix by its inverse. Answers false where the source
        asserts that the matrix is singular. */
    method InverseInPlaceGaussJordan() returns (ok: bool)
      requires Valid() && R == C
      modifies elt
      ensures ok <==> !Singular(old(Contents()), R)
      ensures ok ==> IsLeftInverse(Contents(), old(Contents()), R) && IsLeftInverse(old(Contents()), Contents(), R)
    {
      ghost var a := Contents();
      var rowIndex, colIndex;
      ghost var history;
      ok, rowIndex, colIndex, history := ReduceColumns();
      if ok {
        UndoRowSwaps(rowIndex, colIndex, history);
        LeftInverseIsInverse(Contents(), a, R);
      }
    }
  }

  lemma {:induction false} NonePivoted(n: nat)
    ensures multiset(seq(n, _ => false))[false] == n
  {
    if n > 0 {
      NonePivoted(n - 1);
      assert seq(n, _ => false) == seq(n - 1, _ => false) + [false];
    }
  }

  lemma SomeUnpivoted(pivoted: seq<bool>)
    requires multiset(pivoted)[false] > 0
    ensures exists k :: 0 <= k < |pivoted| && !pivoted[k]
  {
    assert false in pivoted;
  }

  lemma AllPivoted(pivoted: seq<bool>)
    requires multiset(pivoted)[false] == 0
    ensures forall k :: 0 <= k < |pivoted| ==> pivoted[k]
  {
    assert forall k :: 0 <= k < |pivoted| ==> pivoted[k] in multiset(pivoted);
  }
}
