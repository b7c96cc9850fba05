/** The CPU back end of the dense matrix operations
    (src/linalg/backends/cpu/matrix_ops_cpu.hpp).

    A rank-2 tensor view becomes an `array2<int>`: `Length0` is `rows()`,
    `Length1` is `cols()`, and `a[i, j]` is the mdspan element `[i, j]`.  Every
    operation first checks the shapes exactly as the back end does, throwing
    `std::invalid_argument` (an `Outcome.Fail`) before touching the output, and
    then fills the output with nested loops.  Each filled output is proved equal
    to the matching function of `Matrices`. */
module CpuMatrixOps {
  import opened Wrappers
  import opened Matrices

  const NotSquare := "matrix must be square"
  const ShapeMismatch := "matrix dimensions do not match"
  const ProductMismatch := "matrix dimensions do not agree for multiplication"
  const ProductOutMismatch := "output matrix has incompatible dimensions for multiplication"
  const RowOutOfBounds := "row index out of bounds in swap_rows"
  const SolveNotSquare := "solve_linear_system requires square coefficient matrix"
  const Singular := "singular matrix in solve_linear_system"

  /** The entries of a view, row by row. */
  function Entries(a: array2<int>): (m: Grid)
    reads a
    ensures IsMatrix(m, a.Length0, a.Length1)
    ensures forall i, j :: 0 <= i < a.Length0 && 0 <= j < a.Length1 ==> m[i][j] == a[i, j]
  {
    seq(a.Length0, i requires 0 <= i < a.Length0 reads a =>
      seq(a.Length1, j requires 0 <= j < a.Length1 reads a => a[i, j]))
  }

  /** A view whose every cell holds the matching entry of `t` has entries `t`. */
  lemma EntriesAre(a: array2<int>, t: Grid)
    requires IsMatrix(t, a.Length0, a.Length1)
    requires forall i, j :: 0 <= i < a.Length0 && 0 <= j < a.Length1 ==> a[i, j] == t[i][j]
    ensures Entries(a) == t
  {
    var m := Entries(a);
    forall i | 0 <= i < a.Length0 ensures m[i] == t[i] {
    }
  }

  /** `util::require_square`: fails exactly on a non-square view. */
  function RequireSquare(rows: nat, cols: nat): (r: Outcome)
    ensures r.Pass? <==> rows == cols
    ensures r.Fail? ==> r.error == InvalidArgument(NotSquare)
  {
    if rows != cols then Fail(InvalidArgument(NotSquare)) else Pass
  }

  /** `util::require_same_shape`: fails exactly when rows or columns differ. */
  function RequireSameShape(rows: nat, cols: nat, rows': nat, cols': nat): (r: Outcome)
    ensures r.Pass? <==> rows == rows' && cols == cols'
    ensures r.Fail? ==> r.error == InvalidArgument(ShapeMismatch)
  {
    if rows != rows' || cols != cols' then Fail(InvalidArgument(ShapeMismatch)) else Pass
  }

  /** The two checks of `multiply`, the inner dimensions first. */
  function MultiplyCheck(lhs: (nat, nat), rhs: (nat, nat), out: (nat, nat)): (r: Outcome)
    ensures r.Pass? <==> lhs.1 == rhs.0 && out == (lhs.0, rhs.1)
    ensures lhs.1 != rhs.0 ==> r == Fail(InvalidArgument(ProductMismatch))
    ensures lhs.1 == rhs.0 && out != (lhs.0, rhs.1) ==> r == Fail(InvalidArgument(ProductOutMismatch))
  {
    if lhs.1 != rhs.0 then Fail(InvalidArgument(ProductMismatch))
    else if out.0 != lhs.0 || out.1 != rhs.1 then Fail(InvalidArgument(ProductOutMismatch))
    else Pass
  }

  /** The two checks of `add`, `subtract`: `lhs` against `rhs`, then against `out`. */
  function ElementwiseCheck(lhs: (nat, nat), rhs: (nat, nat), out: (nat, nat)): (r: Outcome)
    ensures r.Pass? <==> lhs == rhs == out
    ensures r.Fail? ==> r.error == InvalidArgument(ShapeMismatch)
  {
    var first := RequireSameShape(lhs.0, lhs.1, rhs.0, rhs.1);
    if first.Fail? then first else RequireSameShape(lhs.0, lhs.1, out.0, out.1)
  }

  /** `copy`: `dst` takes the entries `src` had; `src` and `dst` may be the
      same view.  Each cell is read before it is written, so a cell still to
      be visited keeps its old entry. */
  method Copy(src: array2<int>, dst: array2<int>) returns (r: Outcome)
    modifies dst
    ensures r == RequireSameShape(src.Length0, src.Length1, dst.Length0, dst.Length1)
    ensures r.Pass? ==> Entries(dst) == old(Entries(src)) && Entries(dst) == Entries(src)
    ensures r.Fail? ==> unchanged(dst)
  {
    r := RequireSameShape(src.Length0, src.Length1, dst.Length0, dst.Length1);
    if r.Fail? {
      return;
    }
    ghost var t := Entries(src);
    var i := 0;
    while i < src.Length0
      invariant 0 <= i <= src.Length0
      invariant forall p, q :: 0 <= p < i && 0 <= q < src.Length1 ==> dst[p, q] == t[p][q]
      invariant forall p, q :: i <= p < src.Length0 && 0 <= q < src.Length1 ==> src[p, q] == t[p][q]
    {
      var j := 0;
      while j < src.Length1
        invariant 0 <= j <= src.Length1
        invariant forall p, q :: 0 <= p < i && 0 <= q < src.Length1 ==> dst[p, q] == t[p][q]
        invariant forall q :: 0 <= q < j ==> dst[i, q] == t[i][q]
        invariant forall q :: j <= q < src.Length1 ==> src[i, q] == t[i][q]
        invariant forall p, q :: i < p < src.Length0 && 0 <= q < src.Length1 ==> src[p, q] == t[p][q]
      {
        dst[i, j] := src[i, j];
        j := j + 1;
      }
      i := i + 1;
    }
    EntriesAre(dst, t);
    EntriesAre(src, t);
  }

  /** `fill_identity`: a square `out` becomes the identity. */
  method FillIdentity(out: array2<int>) returns (r: Outcome)
    modifies out
    ensures r == RequireSquare(out.Length0, out.Length1)
    ensures r.Pass? ==> Entries(out) == Identity(out.Length0)
    ensures r.Fail? ==> unchanged(out)
  {
    r := RequireSquare(out.Length0, out.Length1);
    if r.Fail? {
      return;
    }
    ghost var t := Identity(out.Length0);
    var i := 0;
    while i < out.Length0
      invariant 0 <= i <= out.Length0
      invariant forall p, q :: 0 <= p < i && 0 <= q < out.Length1 ==> out[p, q] == t[p][q]
    {
      var j := 0;
      while j < out.Length1
        invariant 0 <= j <= out.Length1
        invariant forall p, q :: 0 <= p < i && 0 <= q < out.Length1 ==> out[p, q] == t[p][q]
        invariant forall q :: 0 <= q < j ==> out[i, q] == t[i][q]
      {
        out[i, j] := if i == j then 1 else 0;
        j := j + 1;
      }
      i := i + 1;
    }
    EntriesAre(out, t);
  }

  /** The innermost loop of `multiply`: row `i` of `lhs` times column `j` of
      `rhs`, accumulated from a zero value. */
  method DotProduct(lhs: array2<int>, rhs: array2<int>, i: nat, j: nat) returns (value: int)
    requires lhs.Length1 == rhs.Length0 && i < lhs.Length0 && j < rhs.Length1
    ensures value == Dot(Entries(lhs)[i], Col(Entries(rhs), rhs.Length1, j))
  {
    ghost var u, v := Entries(lhs)[i], Col(Entries(rhs), rhs.Length1, j);
    value := 0;
    var k := 0;
    while k < lhs.Length1
      invariant 0 <= k <= lhs.Length1
      invariant value == Dot(u[..k], v[..k])
    {
      DotStep(u, v, k);
      value := value + lhs[i, k] * rhs[k, j];
      k := k + 1;
    }
    assert u[..k] == u && v[..k] == v;
  }

  /** `multiply`: after the two dimension checks, `out` holds `lhs * rhs`. */
  method Multiply(lhs: array2<int>, rhs: array2<int>, out: array2<int>) returns (r: Outcome)
    requires out != lhs && out != rhs
    modifies out
    ensures r == MultiplyCheck((lhs.Length0, lhs.Length1), (rhs.Length0, rhs.Length1), (out.Length0, out.Length1))
    ensures r.Pass? ==> Entries(out) == Product(Entries(lhs), Entries(rhs), rhs.Length1)
    ensures r.Fail? ==> unchanged(out)
  {
    r := MultiplyCheck((lhs.Length0, lhs.Length1), (rhs.Length0, rhs.Length1), (out.Length0, out.Length1));
    if r.Fail? {
      return;
    }
    ghost var t := Product(Entries(lhs), Entries(rhs), rhs.Length1);
    var i := 0;
    while i < lhs.Length0
      invariant 0 <= i <= lhs.Length0
      invariant forall p, q :: 0 <= p < i && 0 <= q < rhs.Length1 ==> out[p, q] == t[p][q]
    {
      MultiplyRow(lhs, rhs, out, i);
      i := i + 1;
    }
    EntriesAre(out, t);
  }

  /** One pass of the middle loop of `multiply`: row `i` of `out` becomes row
      `i` of the product, and the other rows keep their entries. */
  method MultiplyRow(lhs: array2<int>, rhs: array2<int>, out: array2<int>, i: nat)
    requires out != lhs && out != rhs
    requires lhs.Length1 == rhs.Length0 && out.Length0 == lhs.Length0 && out.Length1 == rhs.Length1
    requires i < lhs.Length0
    modifies out
    ensures forall q :: 0 <= q < out.Length1 ==> out[i, q] == Product(Entries(lhs), Entries(rhs), rhs.Length1)[i][q]
    ensures forall p, q :: 0 <= p < out.Length0 && 0 <= q < out.Length1 && p != i ==> out[p, q] == old(out[p, q])
  {
    var j := 0;
    while j < rhs.Length1
      invariant 0 <= j <= rhs.Length1
      invariant forall p, q :: 0 <= p < out.Length0 && 0 <= q < out.Length1 && p != i ==> out[p, q] == old(out[p, q])
      invariant forall q :: 0 <= q < j ==> out[i, q] == Dot(Entries(lhs)[i], Col(Entries(rhs), rhs.Length1, q))
    {
      var value := DotProduct(lhs, rhs, i, j);
      out[i, j] := value;
      j := j + 1;
    }
  }

  /** The two element-wise operations that share one loop nest. */
  datatype Elementwise = Plus | Minus

  function Apply(op: Elementwise, x: int, y: int): int
  {
    if op == Plus then x + y else x - y
  }

  /** The matrix `op` makes of `a` and `b`. */
  function Combined(op: Elementwise, a: Grid, b: Grid): (s: Grid)
    requires SameShape(a, b)
    ensures SameShape(s, a)
  {
    if op == Plus then Sum(a, b) else Difference(a, b)
  }

  /** The loop nest of `add` and `subtract`: `out` takes `op` of the entries
      `lhs` and `rhs` had.  `out` may be `lhs` or `rhs`: each cell is read
      before it is written, so a cell still to be visited keeps its old entries. */
  method Combine(op: Elementwise, lhs: array2<int>, rhs: array2<int>, out: array2<int>)
    requires lhs.Length0 == rhs.Length0 == out.Length0 && lhs.Length1 == rhs.Length1 == out.Length1
    modifies out
    ensures Entries(out) == Combined(op, old(Entries(lhs)), old(Entries(rhs)))
  {
    ghost var a, b := Entries(lhs), Entries(rhs);
    var i := 0;
    while i < lhs.Length0
      invariant 0 <= i <= lhs.Length0
      invariant forall p, q :: 0 <= p < i && 0 <= q < lhs.Length1 ==> out[p, q] == Apply(op, a[p][q], b[p][q])
      invariant forall p, q :: i <= p < lhs.Length0 && 0 <= q < lhs.Length1 ==> lhs[p, q] == a[p][q] && rhs[p, q] == b[p][q]
    {
      CombineRow(op, lhs, rhs, out, i, a, b);
      i := i + 1;
    }
    ghost var t := Combined(op, a, b);
    assert forall p, q :: 0 <= p < lhs.Length0 && 0 <= q < lhs.Length1 ==> out[p, q] == t[p][q];
    EntriesAre(out, t);
  }

  /** One pass of the outer loop of `Combine`: row `i` of `out` takes `op` of
      the old entries; the rows above keep theirs, and the rows below, not yet
      visited, still hold the old entries of `lhs` and `rhs`. */
  method CombineRow(op: Elementwise, lhs: array2<int>, rhs: array2<int>, out: array2<int>, i: nat,
                    ghost a: Grid, ghost b: Grid)
    requires lhs.Length0 == rhs.Length0 == out.Length0 && lhs.Length1 == rhs.Length1 == out.Length1
    requires i < lhs.Length0 && IsMatrix(a, lhs.Length0, lhs.Length1) && IsMatrix(b, lhs.Length0, lhs.Length1)
    requires forall p, q :: i <= p < lhs.Length0 && 0 <= q < lhs.Length1 ==> lhs[p, q] == a[p][q] && rhs[p, q] == b[p][q]
    modifies out
    ensures forall q :: 0 <= q < lhs.Length1 ==> out[i, q] == Apply(op, a[i][q], b[i][q])
    ensures forall p, q :: 0 <= p < lhs.Length0 && 0 <= q < lhs.Length1 && p != i ==> out[p, q] == old(out[p, q])
    ensures forall p, q :: i < p < lhs.Length0 && 0 <= q < lhs.Length1 ==> lhs[p, q] == a[p][q] && rhs[p, q] == b[p][q]
  {
    var j := 0;
    while j < lhs.Length1
      invariant 0 <= j <= lhs.Length1
      invariant forall q :: 0 <= q < j ==> out[i, q] == Apply(op, a[i][q], b[i][q])
      invariant forall p, q :: 0 <= p < lhs.Length0 && 0 <= q < lhs.Length1 && p != i ==> out[p, q] == old(out[p, q])
      invariant forall q :: j <= q < lhs.Length1 ==> lhs[i, q] == a[i][q] && rhs[i, q] == b[i][q]
      invariant forall p, q :: i < p < lhs.Length0 && 0 <= q < lhs.Length1 ==> lhs[p, q] == a[p][q] && rhs[p, q] == b[p][q]
    {
      out[i, j] := if op == Plus then lhs[i, j] + rhs[i, j] else lhs[i, j] - rhs[i, j];
      j := j + 1;
    }
  }

  /** `add`: after the shape checks, `out` holds the element-wise sum of the
      entries `lhs` and `rhs` had; `out` may be either of them. */
  method Add(lhs: array2<int>, rhs: array2<int>, out: array2<int>) returns (r: Outcome)
    modifies out
    ensures r == ElementwiseCheck((lhs.Length0, lhs.Length1), (rhs.Length0, rhs.Length1), (out.Length0, out.Length1))
    ensures r.Pass? ==> Entries(out) == Sum(old(Entries(lhs)), old(Entries(rhs)))
    ensures r.Pass? && out != lhs && out != rhs ==> Entries(out) == Sum(Entries(lhs), Entries(rhs))
    ensures r.Fail? ==> unchanged(out)
  {
    r := ElementwiseCheck((lhs.Length0, lhs.Length1), (rhs.Length0, rhs.Length1), (out.Length0, out.Length1));
    if r.Fail? {
      return;
    }
    Combine(Plus, lhs, rhs, out);
  }

  /** `subtract`: after the shape checks, `out` holds the element-wise
      difference of the entries `lhs` and `rhs` had; `out` may be either of them. */
  method Subtract(lhs: array2<int>, rhs: array2<int>, out: array2<int>) returns (r: Outcome)
    modifies out
    ensures r == ElementwiseCheck((lhs.Length0, lhs.Length1), (rhs.Length0, rhs.Length1), (out.Length0, out.Length1))
    ensures r.Pass? ==> Entries(out) == Difference(old(Entries(lhs)), old(Entries(rhs)))
    ensures r.Pass? && out != lhs && out != rhs ==> Entries(out) == Difference(Entries(lhs), Entries(rhs))
    ensures r.Fail? ==> unchanged(out)
  {
    r := ElementwiseCheck((lhs.Length0, lhs.Length1), (rhs.Length0, rhs.Length1), (out.Length0, out.Length1));
    if r.Fail? {
      return;
    }
    Combine(Minus, lhs, rhs, out);
  }

  /** `scale`: after the shape check, `out` holds every entry `mat` had
      times `scalar`.  `out` may be `mat`: each cell is read before it is
      written. */
  method Scale(mat: array2<int>, scalar: int, out: array2<int>) returns (r: Outcome)
    modifies out
    ensures r == RequireSameShape(mat.Length0, mat.Length1, out.Length0, out.Length1)
    ensures r.Pass? ==> Entries(out) == Scaled(old(Entries(mat)), scalar)
    ensures r.Pass? && out != mat ==> Entries(out) == Scaled(Entries(mat), scalar)
    ensures r.Fail? ==> unchanged(out)
  {
    r := RequireSameShape(mat.Length0, mat.Length1, out.Length0, out.Length1);
    if r.Fail? {
      return;
    }
    ghost var a := Entries(mat);
    ghost var t := Scaled(a, scalar);
    var i := 0;
    while i < mat.Length0
      invariant 0 <= i <= mat.Length0
      invariant forall p, q :: 0 <= p < i && 0 <= q < mat.Length1 ==> out[p, q] == t[p][q]
      invariant forall p, q :: i <= p < mat.Length0 && 0 <= q < mat.Length1 ==> mat[p, q] == a[p][q]
    {
      var j := 0;
      while j < mat.Length1
        invariant 0 <= j <= mat.Length1
        invariant forall p, q :: 0 <= p < i && 0 <= q < mat.Length1 ==> out[p, q] == t[p][q]
        invariant forall q :: 0 <= q < j ==> out[i, q] == t[i][q]
        invariant forall q :: j <= q < mat.Length1 ==> mat[i, q] == a[i][q]
        invariant forall p, q :: i < p < mat.Length0 && 0 <= q < mat.Length1 ==> mat[p, q] == a[p][q]
      {
        out[i, j] := mat[i, j] * scalar;
        j := j + 1;
      }
      i := i + 1;
    }
    EntriesAre(out, t);
  }

  /** The bounds check of `swap_rows`, which the equal-rows case skips:
      fails exactly when the rows differ and either is outside `[0, rows)`. */
  function SwapRowsCheck(rows: nat, lhs: int, rhs: int): (r: Outcome)
    ensures r.Fail? <==> lhs != rhs && !(0 <= lhs < rows && 0 <= rhs < rows)
    ensures r.Fail? ==> r.error == OutOfRange(RowOutOfBounds)
  {
    if lhs == rhs then Pass
    else if lhs < 0 || rhs < 0 || lhs >= rows || rhs >= rows then Fail(OutOfRange(RowOutOfBounds))
    else Pass
  }

  /** `swap_rows`: rows `lhs` and `rhs` exchange their entries; the other rows
      keep theirs.  Equal indices return at once, even out of bounds. */
  method SwapRowsInPlace(mat: array2<int>, lhs: int, rhs: int) returns (r: Outcome)
    modifies mat
    ensures r == SwapRowsCheck(mat.Length0, lhs, rhs)
    ensures r.Pass? && lhs != rhs ==> Entries(mat) == SwapRows(old(Entries(mat)), lhs, rhs)
    ensures r.Fail? || lhs == rhs ==> unchanged(mat)
  {
    r := SwapRowsCheck(mat.Length0, lhs, rhs);
    if lhs == rhs || r.Fail? {
      return;
    }
    ghost var t := SwapRows(Entries(mat), lhs, rhs);
    var j := 0;
    while j < mat.Length1
      invariant 0 <= j <= mat.Length1
      invariant forall p, q :: 0 <= p < mat.Length0 && 0 <= q < mat.Length1 && p != lhs && p != rhs ==> mat[p, q] == t[p][q]
      invariant forall q :: 0 <= q < j ==> mat[lhs, q] == t[lhs][q] && mat[rhs, q] == t[rhs][q]
      invariant forall q :: j <= q < mat.Length1 ==> mat[lhs, q] == t[rhs][q] && mat[rhs, q] == t[lhs][q]
    {
      mat[lhs, j], mat[rhs, j] := mat[rhs, j], mat[lhs, j];
      j := j + 1;
    }
    EntriesAre(mat, t);
  }

  /** The argument check of `solve_linear_system`: `A` square with as many rows as `B`. */
  function SolveCheck(aRows: nat, aCols: nat, bRows: nat): (r: Outcome)
    ensures r.Pass? <==> aRows == aCols == bRows
    ensures r.Fail? ==> r.error == InvalidArgument(SolveNotSquare)
  {
    if aRows != aCols || aRows != bRows then Fail(InvalidArgument(SolveNotSquare)) else Pass
  }

  function Abs(x: int): nat
  {
    if x < 0 then -x else x
  }

  /** Column `k` of `a` is zero from row `k` down. */
  predicate ColumnZeroFrom(a: array2<int>, k: nat)
    requires k < a.Length1
    reads a
  {
    forall i :: k <= i < a.Length0 ==> a[i, k] == 0
  }

  /** The partial pivot search of elimination step `k`: the first row at or
      below `k` whose entry in column `k` has the largest magnitude, or the
      singular-matrix error when that magnitude is zero. */
  method SelectPivot(a: array2<int>, k: nat) returns (r: Result<nat>)
    requires a.Length0 == a.Length1 && k < a.Length0
    ensures r.Err? <==> ColumnZeroFrom(a, k)
    ensures r.Err? ==> r.error == RuntimeError(Singular)
    ensures r.Ok? ==> k <= r.value < a.Length0
    ensures r.Ok? ==> forall i :: k <= i < a.Length0 ==> Abs(a[i, k]) <= Abs(a[r.value, k])
    ensures r.Ok? ==> forall i :: k <= i < r.value ==> Abs(a[i, k]) < Abs(a[r.value, k])
  {
    var pivotRow := k;
    var pivotValue := Abs(a[k, k]);
    var i := k + 1;
    while i < a.Length0
      invariant k + 1 <= i <= a.Length0
      invariant k <= pivotRow < i && pivotValue == Abs(a[pivotRow, k])
      invariant forall p :: k <= p < i ==> Abs(a[p, k]) <= pivotValue
      invariant forall p :: k <= p < pivotRow ==> Abs(a[p, k]) < pivotValue
    {
      var candidate := Abs(a[i, k]);
      if candidate > pivotValue {
        pivotValue := candidate;
        pivotRow := i;
      }
      i := i + 1;
    }
    if pivotValue == 0 {
      r := Err(RuntimeError(Singular));
    } else {
      r := Ok(pivotRow);
    }
  }
}
