/** `gaussian_elimination`, with an exact zero test for the pivot. */
module LinearSolver {
  import opened Wrappers
  import opened RealFacts

  type Row = seq<real>

  // ----- what a solution is -----

  /** The sum of r[j] * x[j] for j from `from` to n - 1. */
  function Dot(r: Row, x: Row, from: nat, n: nat): real
    requires from <= n <= |r| && n <= |x|
    decreases n - from
  {
    if from == n then 0.0 else Times(r[from], x[from]) + Dot(r, x, from + 1, n)
  }

  /** Row r of an augmented matrix, read as an equation. */
  predicate Holds(r: Row, x: Row, n: nat) {
    |r| == n + 1 && |x| == n && Dot(r, x, 0, n) == r[n]
  }

  predicate Augmented(a: seq<Row>, n: nat) {
    |a| == n && forall i | 0 <= i < n :: |a[i]| == n + 1
  }

  ghost predicate Solves(a: seq<Row>, x: Row, n: nat) {
    |x| == n && forall i | 0 <= i < |a| :: Holds(a[i], x, n)
  }

  ghost predicate SameSolutions(a: seq<Row>, b: seq<Row>, n: nat) {
    forall x: Row :: Solves(a, x, n) <==> Solves(b, x, n)
  }

  // ----- the steps -----

  function Augment(matrix: seq<Row>, rhs: Row): (a: seq<Row>)
    requires |rhs| == |matrix|
    ensures |a| == |matrix|
    ensures forall i | 0 <= i < |a| :: a[i] == matrix[i] + [rhs[i]]
  {
    seq(|matrix|, i requires 0 <= i < |matrix| => matrix[i] + [rhs[i]])
  }

  function Swap(a: seq<Row>, i: nat, j: nat): seq<Row>
    requires i < |a| && j < |a|
  {
    a[i := a[j]][j := a[i]]
  }

  /** The row r - factor * p, in the columns from `from` on. */
  function Reduce(r: Row, factor: real, p: Row, from: nat): (s: Row)
    requires |r| == |p|
    ensures |s| == |r|
    ensures forall j | 0 <= j < |r| :: s[j] == if j < from then r[j] else r[j] - Times(factor, p[j])
  {
    seq(|r|, j requires 0 <= j < |r| => if j < from then r[j] else r[j] - Times(factor, p[j]))
  }

  /** Columns before `col` are zero below the diagonal and nonzero on it. */
  predicate Echelon(a: seq<Row>, n: nat, col: nat) {
    && Augmented(a, n) && col <= n
    && (forall i, j | 0 <= j < col && j < i < n :: a[i][j] == 0.0)
    && (forall j | 0 <= j < col :: a[j][j] != 0.0)
  }

  // ----- the steps keep the solutions -----

  lemma SwapKeepsSolutions(a: seq<Row>, i: nat, j: nat, n: nat)
    requires i < |a| && j < |a|
    ensures SameSolutions(a, Swap(a, i, j), n)
  {
    var b := Swap(a, i, j);
    forall x: Row ensures Solves(a, x, n) <==> Solves(b, x, n) {
      if Solves(a, x, n) {
        forall k | 0 <= k < |b| ensures Holds(b[k], x, n) {
          assert Holds(a[if k == i then j else if k == j then i else k], x, n);
        }
      }
      if Solves(b, x, n) {
        forall k | 0 <= k < |a| ensures Holds(a[k], x, n) {
          assert Holds(b[if k == i then j else if k == j then i else k], x, n);
        }
      }
    }
  }

  lemma {:induction false} DotReduce(r: Row, factor: real, p: Row, from: nat, x: Row, k: nat, n: nat)
    requires k <= n <= |r| && |r| == |p| && n <= |x|
    requires forall j | 0 <= j < from && j < n :: p[j] == 0.0
    ensures Dot(Reduce(r, factor, p, from), x, k, n) == Dot(r, x, k, n) - Times(factor, Dot(p, x, k, n))
    decreases n - k
  {
    if k < n {
      DotReduce(r, factor, p, from, x, k + 1, n);
      ReduceTerm(r[k], factor, p[k], x[k], Dot(p, x, k + 1, n));
      if k < from {
        assert Times(factor, 0.0) == 0.0;
      }
    }
  }

  lemma ReduceTerm(r: real, factor: real, p: real, x: real, rest: real)
    ensures Times(r - Times(factor, p), x) == Times(r, x) - Times(factor, Times(p, x))
    ensures Times(factor, Times(p, x) + rest) == Times(factor, Times(p, x)) + Times(factor, rest)
  {
    assert (r - factor * p) * x == r * x - factor * (p * x);
  }

  /** Subtracting a multiple of one row from another, where the first is zero before `col`. */
  lemma ReduceKeepsSolutions(a: seq<Row>, row: nat, col: nat, factor: real, n: nat)
    requires Augmented(a, n) && row < n && col < n && row != col
    requires forall j | 0 <= j < col :: a[col][j] == 0.0
    ensures SameSolutions(a, a[row := Reduce(a[row], factor, a[col], col)], n)
  {
    var b := a[row := Reduce(a[row], factor, a[col], col)];
    forall x: Row ensures Solves(a, x, n) <==> Solves(b, x, n) {
      if |x| == n {
        DotReduce(a[row], factor, a[col], col, x, 0, n);
        if Solves(a, x, n) {
          assert Holds(a[row], x, n) && Holds(a[col], x, n);
          forall k | 0 <= k < n ensures Holds(b[k], x, n) { assert Holds(a[k], x, n); }
        }
        if Solves(b, x, n) {
          assert b[col] == a[col];
          assert Holds(b[row], x, n) && Holds(b[col], x, n);
          forall k | 0 <= k < n ensures Holds(a[k], x, n) { assert Holds(b[k], x, n); }
        }
      }
    }
  }

  // ----- back substitution -----

  /** The value that row i gives x[i] once the later entries of x are known. */
  function BackValue(a: seq<Row>, n: nat, x: Row, i: nat): real
    requires Echelon(a, n, n) && |x| == n && i < n
  {
    (a[i][n] - Dot(a[i], x, i + 1, n)) / a[i][i]
  }

  lemma {:induction false} DotSkipsZeros(r: Row, x: Row, k: nat, i: nat, n: nat)
    requires k <= i <= n <= |r| && n <= |x|
    requires forall j | k <= j < i :: r[j] == 0.0
    ensures Dot(r, x, k, n) == Dot(r, x, i, n)
    decreases i - k
  {
    if k < i {
      assert Times(0.0, x[k]) == 0.0;
      DotSkipsZeros(r, x, k + 1, i, n);
    }
  }

  lemma {:induction false} DotAgrees(r: Row, x: Row, y: Row, k: nat, n: nat)
    requires k <= n <= |r| && n <= |x| && n <= |y|
    requires forall j | k <= j < n :: x[j] == y[j]
    ensures Dot(r, x, k, n) == Dot(r, y, k, n)
    decreases n - k
  {
    if k < n { DotAgrees(r, x, y, k + 1, n); }
  }

  lemma TimesQuotient(p: real, q: real)
    requires p != 0.0
    ensures Times(p, q / p) == q
  {
  }

  /** In a triangular system the back-substituted values, and no others, are a solution. */
  lemma RowFixesValue(a: seq<Row>, n: nat, x: Row, i: nat)
    requires Echelon(a, n, n) && |x| == n && i < n
    ensures Holds(a[i], x, n) <==> x[i] == BackValue(a, n, x, i)
  {
    DotSkipsZeros(a[i], x, 0, i, n);
    var rest := a[i][n] - Dot(a[i], x, i + 1, n);
    TimesQuotient(a[i][i], rest);
    if Holds(a[i], x, n) { Cancel(a[i][i], x[i], rest / a[i][i]); }
  }

  lemma {:induction false} SolutionsAgree(a: seq<Row>, n: nat, x: Row, y: Row, k: nat)
    requires Echelon(a, n, n) && Solves(a, x, n) && Solves(a, y, n) && k <= n
    ensures forall j | k <= j < n :: x[j] == y[j]
    decreases n - k
  {
    if k < n {
      SolutionsAgree(a, n, x, y, k + 1);
      DotAgrees(a[k], x, y, k + 1, n);
      RowFixesValue(a, n, x, k);
      RowFixesValue(a, n, y, k);
    }
  }

  // ----- a column without a pivot -----

  /** No row from `col` on has an entry in column `col`. */
  predicate NoPivot(a: seq<Row>, n: nat, col: nat) {
    Echelon(a, n, col) && col < n && forall i | col <= i < n :: a[i][col] == 0.0
  }

  /** Then some vector other than 0 is mapped to 0: rows k to col - 1 fix its entries from `col` on. */
  lemma {:induction false} Kernel(a: seq<Row>, n: nat, col: nat, k: nat) returns (v: Row)
    requires NoPivot(a, n, col) && k <= col
    ensures |v| == n && v[col] == 1.0 && (forall j | col < j < n :: v[j] == 0.0)
    ensures forall i | k <= i < n :: Dot(a[i], v, if i < col then i else col, n) == 0.0
    decreases col - k
  {
    if k == col {
      v := seq(n, j => if j == col then 1.0 else 0.0);
      forall i | col <= i < n ensures Dot(a[i], v, col, n) == 0.0 {
        KernelTail(a[i], v, col, n);
      }
    } else {
      var w := Kernel(a, n, col, k + 1);
      var rest := Dot(a[k], w, k + 1, n);
      v := w[k := -rest / a[k][k]];
      TimesQuotient(a[k][k], -rest);
      DotAgrees(a[k], v, w, k + 1, n);
      forall i | k < i < n ensures Dot(a[i], v, if i < col then i else col, n) == 0.0 {
        DotAgrees(a[i], v, w, if i < col then i else col, n);
      }
    }
  }

  lemma {:induction false} DotZeroVector(r: Row, v: Row, k: nat, n: nat)
    requires k <= n <= |r| && n <= |v|
    requires forall j | k <= j < n :: v[j] == 0.0
    ensures Dot(r, v, k, n) == 0.0
    decreases n - k
  {
    if k < n {
      assert Times(r[k], 0.0) == 0.0;
      DotZeroVector(r, v, k + 1, n);
    }
  }

  lemma KernelTail(r: Row, v: Row, col: nat, n: nat)
    requires col < n <= |r| && |v| == n && r[col] == 0.0
    requires forall j | col < j < n :: v[j] == 0.0
    ensures Dot(r, v, col, n) == 0.0
  {
    assert Times(0.0, v[col]) == 0.0;
    DotZeroVector(r, v, col + 1, n);
  }

  function Plus(x: Row, v: Row): (s: Row)
    requires |x| == |v|
    ensures |s| == |x|
    ensures forall j | 0 <= j < |x| :: s[j] == x[j] + v[j]
  {
    seq(|x|, j requires 0 <= j < |x| => x[j] + v[j])
  }

  lemma {:induction false} DotPlus(r: Row, x: Row, v: Row, k: nat, n: nat)
    requires k <= n <= |r| && |x| == |v| == n
    ensures Dot(r, Plus(x, v), k, n) == Dot(r, x, k, n) + Dot(r, v, k, n)
    decreases n - k
  {
    if k < n {
      DotPlus(r, x, v, k + 1, n);
      assert Times(r[k], x[k] + v[k]) == Times(r[k], x[k]) + Times(r[k], v[k]);
    }
  }

  /** Every solution of a system without a pivot has another one beside it. */
  lemma NoPivotNotUnique(a: seq<Row>, n: nat, col: nat, x: Row) returns (y: Row)
    requires NoPivot(a, n, col) && Solves(a, x, n)
    ensures Solves(a, y, n) && y != x
  {
    var v := Kernel(a, n, col, 0);
    y := Plus(x, v);
    forall i | 0 <= i < n ensures Holds(a[i], y, n) {
      assert Holds(a[i], x, n);
      DotSkipsZeros(a[i], v, 0, if i < col then i else col, n);
      DotPlus(a[i], x, v, 0, n);
    }
    assert y[col] == x[col] + 1.0;
  }

  // ----- the program -----

  ghost predicate UniqueSolution(a: seq<Row>, x: Row, n: nat) {
    Solves(a, x, n) && forall y: Row | Solves(a, y, n) :: y == x
  }

  const INVALID_DIMENSIONS := "invalid matrix dimensions"
  const LENGTH_MISMATCH := "RHS length mismatch"
  const SINGULAR := "singular matrix: no unique solution"

  /** The row from `col` on with the largest entry in column `col`. */
  method FindPivot(a: array<Row>, n: nat, col: nat) returns (maxRow: nat, maxVal: real)
    requires Augmented(a[..], n) && col < n
    ensures col <= maxRow < n && maxVal == Mag(a[maxRow][col])
    ensures forall i | col <= i < n :: Mag(a[i][col]) <= maxVal
  {
    assert forall i | 0 <= i < n :: a[i] == a[..][i];
    maxRow := col;
    maxVal := Mag(a[col][col]);
    for row := col + 1 to n
      invariant col <= maxRow < n && maxVal == Mag(a[maxRow][col])
      invariant forall i | col <= i < row :: Mag(a[i][col]) <= maxVal
    {
      var val := Mag(a[row][col]);
      if val > maxVal {
        maxVal := val;
        maxRow := row;
      }
    }
  }

  /** Subtracts the multiple of the pivot row that clears column `col` of row `row`. */
  method EliminateRow(a: array<Row>, n: nat, row: nat, col: nat)
    requires Augmented(a[..], n) && col < row < n && a[col][col] != 0.0
    modifies a
    ensures a[..] == old(a[..])[row := Reduce(old(a[row]), old(a[row][col] / a[col][col]), old(a[col]), col)]
  {
    ghost var before := a[..];
    assert forall i | 0 <= i < n :: a[i] == before[i];
    var factor := a[row][col] / a[col][col];
    ghost var target := Reduce(before[row], factor, before[col], col);
    for j := col to n + 1
      invariant a.Length == n && |a[row]| == n + 1
      invariant forall i | 0 <= i < n && i != row :: a[i] == before[i]
      invariant forall k | 0 <= k <= n :: a[row][k] == if k < j then target[k] else before[row][k]
    {
      a[row] := a[row][j := a[row][j] - Times(factor, a[col][j])];
    }
    assert a[row] == target;
  }

  /** Clears column `col` below the pivot. */
  method EliminateBelow(a: array<Row>, n: nat, col: nat)
    requires col < n && Echelon(a[..], n, col) && a[col][col] != 0.0
    modifies a
    ensures Echelon(a[..], n, col + 1)
    ensures SameSolutions(old(a[..]), a[..], n)
  {
    ghost var before := a[..];
    for row := col + 1 to n
      invariant a.Length == n && Echelon(a[..], n, col) && a[col][col] != 0.0
      invariant forall i | col < i < row :: a[i][col] == 0.0
      invariant SameSolutions(before, a[..], n)
    {
      ghost var now := a[..];
      EliminateStep(now, n, row, col);
      EliminateRow(a, n, row, col);
      assert a[..] == now[row := Reduce(now[row], now[row][col] / now[col][col], now[col], col)];
      assert forall i | 0 <= i < n :: a[i] == a[..][i];
    }
  }

  lemma EliminateStep(a: seq<Row>, n: nat, row: nat, col: nat)
    requires col < row < n && Echelon(a, n, col) && a[col][col] != 0.0
    ensures var b := a[row := Reduce(a[row], a[row][col] / a[col][col], a[col], col)];
            Echelon(b, n, col) && b[row][col] == 0.0 && SameSolutions(a, b, n)
  {
    var factor := a[row][col] / a[col][col];
    assert forall j | 0 <= j < col :: a[col][j] == 0.0;
    ReduceKeepsSolutions(a, row, col, factor, n);
    assert factor * a[col][col] == a[row][col];
  }

  lemma SwapEchelon(a: seq<Row>, n: nat, col: nat, i: nat)
    requires Echelon(a, n, col) && col <= i < n
    ensures Echelon(Swap(a, col, i), n, col)
  {
  }

  /** Back substitution on a triangular system. */
  method BackSubstitute(a: array<Row>, n: nat) returns (x: Row)
    requires Echelon(a[..], n, n)
    ensures UniqueSolution(a[..], x, n)
  {
    ghost var rows := a[..];
    assert forall i | 0 <= i < n :: a[i] == rows[i];
    x := seq(n, _ => 0.0);
    for i := n downto 0
      invariant |x| == n
      invariant forall k | i <= k < n :: x[k] == BackValue(rows, n, x, k)
    {
      var sum := a[i][n];
      for j := i + 1 to n
        invariant sum - Dot(a[i], x, j, n) == a[i][n] - Dot(a[i], x, i + 1, n)
      {
        sum := sum - Times(a[i][j], x[j]);
      }
      ghost var x' := x;
      x := x[i := sum / a[i][i]];
      forall k | i <= k < n ensures x[k] == BackValue(rows, n, x, k) {
        DotAgrees(rows[k], x, x', k + 1, n);
      }
    }
    forall i | 0 <= i < n ensures Holds(rows[i], x, n) {
      RowFixesValue(rows, n, x, i);
    }
    forall y: Row | Solves(rows, y, n) ensures y == x {
      SolutionsAgree(rows, n, x, y, 0);
    }
  }

  /**
    On success the result is the only solution of the given system; the matrix is
    called singular only when no solution is the only one.
    */
  method GaussianElimination(matrix: seq<Row>, rhs: Row) returns (r: Result<Row, string>)
    requires forall i | 0 <= i < |matrix| :: |matrix[i]| == |matrix[0]|
    ensures r == Err(INVALID_DIMENSIONS) <==> |matrix| == 0 || |matrix[0]| != |matrix|
    ensures r == Err(LENGTH_MISMATCH) <==> |matrix| != 0 && |matrix[0]| == |matrix| && |rhs| != |matrix|
    ensures r.Ok? ==> |rhs| == |matrix| && UniqueSolution(Augment(matrix, rhs), r.value, |matrix|)
    ensures r.Err? ==> r.error in [INVALID_DIMENSIONS, LENGTH_MISMATCH, SINGULAR]
    ensures r == Err(SINGULAR) ==>
              |rhs| == |matrix| && !exists x: Row :: UniqueSolution(Augment(matrix, rhs), x, |matrix|)
  {
    var n := |matrix|;
    if n == 0 || |matrix[0]| != n {
      return Err(INVALID_DIMENSIONS);
    }
    if |rhs| != n {
      return Err(LENGTH_MISMATCH);
    }
    ghost var system := Augment(matrix, rhs);
    var aug := new Row[n](i requires 0 <= i < n => matrix[i] + [rhs[i]]);
    assert aug[..] == system;
    for col := 0 to n
      invariant aug.Length == n && Echelon(aug[..], n, col)
      invariant SameSolutions(system, aug[..], n)
    {
      var maxRow, maxVal := FindPivot(aug, n, col);
      assert forall i | 0 <= i < n :: aug[i] == aug[..][i];
      if maxVal == 0.0 {
        NoPivotMeansSingular(system, aug[..], n, col);
        return Err(SINGULAR);
      }
      SwapKeepsSolutions(aug[..], col, maxRow, n);
      SwapEchelon(aug[..], n, col, maxRow);
      ghost var swapped := Swap(aug[..], col, maxRow);
      aug[col], aug[maxRow] := aug[maxRow], aug[col];
      assert aug[..] == swapped;
      EliminateBelow(aug, n, col);
    }
    var x := BackSubstitute(aug, n);
    return Ok(x);
  }

  lemma NoPivotMeansSingular(system: seq<Row>, a: seq<Row>, n: nat, col: nat)
    requires SameSolutions(system, a, n) && NoPivot(a, n, col)
    ensures !exists x: Row :: UniqueSolution(system, x, n)
  {
    if x: Row :| UniqueSolution(system, x, n) {
      var y := NoPivotNotUnique(a, n, col, x);
      assert false;
    }
  }
}
