/** The small dense matrix of the exponential integrator
    (src/expokit/matrix.hpp).

    `Matrix` owns a row-major vector: entry `(i, j)` lives at `data[i * cols + j]`.
    The free functions build fresh matrices with loops over that storage and
    are proved against `Matrices` through `Entries()`, the rows the vector
    spells out.  `std::size_t` arithmetic is taken as unbounded: `rows * cols`
    is assumed not to wrap. */
module ExpokitMatrix {
  import opened Wrappers
  import opened Matrices

  const ProductMismatch := "matrix dimensions do not agree for multiplication"
  const SumMismatch := "matrix dimensions do not agree for addition"
  const DifferenceMismatch := "matrix dimensions do not agree for subtraction"
  const PowerNotSquare := "matrix_power requires a square matrix"
  const SolveNotSquare := "solve_linear_system requires square coefficient matrix"
  const Singular := "singular matrix in solve_linear_system"

  /** Row `i`, column `j` of an `r x c` row-major layout is inside the storage. */
  lemma IndexBound(r: nat, c: nat, i: nat, j: nat)
    requires i < r && j < c
    ensures i * c + j < r * c
  {
    assert i * c + j < i * c + c == (i + 1) * c;
    assert (i + 1) * c <= r * c by {
      MulMono(i + 1, r, c);
    }
  }

  lemma MulMono(x: nat, y: nat, c: nat)
    requires x <= y
    ensures x * c <= y * c
  {
  }

  /** Distinct cells of a row-major layout have distinct offsets. */
  lemma IndexInjective(c: nat, i: nat, j: nat, p: nat, q: nat)
    requires j < c && q < c
    ensures i * c + j == p * c + q <==> i == p && j == q
  {
    if i < p {
      MulMono(i + 1, p, c);
      assert i * c + j < (i + 1) * c <= p * c;
    } else if p < i {
      MulMono(p + 1, i, c);
      assert p * c + q < (p + 1) * c <= i * c;
    }
  }

  /** The rows a row-major vector of `r * c` entries spells out. */
  function EntriesOf(data: seq<int>, r: nat, c: nat): (m: Grid)
    requires |data| == r * c
    ensures IsMatrix(m, r, c)
  {
    seq(r, i requires 0 <= i < r =>
      seq(c, j requires 0 <= j < c => IndexBound(r, c, i, j); data[i * c + j]))
  }

  /** Writing one offset changes exactly the matching cell. */
  lemma EntriesOfUpdate(data: seq<int>, r: nat, c: nat, i: nat, j: nat, v: int)
    requires |data| == r * c && i < r && j < c
    ensures i * c + j < |data|
    ensures EntriesOf(data[i * c + j := v], r, c) == EntriesOf(data, r, c)[i := EntriesOf(data, r, c)[i][j := v]]
  {
    IndexBound(r, c, i, j);
    var m, m' := EntriesOf(data, r, c), EntriesOf(data[i * c + j := v], r, c);
    var want := m[i := m[i][j := v]];
    forall p | 0 <= p < r ensures m'[p] == want[p] {
      forall q | 0 <= q < c ensures m'[p][q] == want[p][q] {
        IndexInjective(c, i, j, p, q);
        IndexBound(r, c, p, q);
      }
    }
  }

  /** Entry-by-entry sums, differences and multiples of the storage are the
      element-wise operations on the rows. */
  lemma EntriesOfPointwise(a: seq<int>, b: seq<int>, s: int, r: nat, c: nat)
    requires |a| == |b| == r * c
    ensures EntriesOf(seq(|a|, k requires 0 <= k < |a| => a[k] + b[k]), r, c) == Sum(EntriesOf(a, r, c), EntriesOf(b, r, c))
    ensures EntriesOf(seq(|a|, k requires 0 <= k < |a| => a[k] - b[k]), r, c) == Difference(EntriesOf(a, r, c), EntriesOf(b, r, c))
    ensures EntriesOf(seq(|a|, k requires 0 <= k < |a| => a[k] * s), r, c) == Scaled(EntriesOf(a, r, c), s)
  {
    var sum := seq(|a|, k requires 0 <= k < |a| => a[k] + b[k]);
    var diff := seq(|a|, k requires 0 <= k < |a| => a[k] - b[k]);
    var mul := seq(|a|, k requires 0 <= k < |a| => a[k] * s);
    var ea, eb := EntriesOf(a, r, c), EntriesOf(b, r, c);
    var es, ed, em := EntriesOf(sum, r, c), EntriesOf(diff, r, c), EntriesOf(mul, r, c);
    var ws, wd, wm := Sum(ea, eb), Difference(ea, eb), Scaled(ea, s);
    forall i | 0 <= i < r ensures es[i] == ws[i] && ed[i] == wd[i] && em[i] == wm[i] {
      forall j | 0 <= j < c ensures es[i][j] == ws[i][j] && ed[i][j] == wd[i][j] && em[i][j] == wm[i][j] {
        IndexBound(r, c, i, j);
      }
    }
  }

  /** Zero storage spells out the zero matrix. */
  lemma EntriesOfZeros(r: nat, c: nat)
    ensures EntriesOf(seq(r * c, k => 0), r, c) == Zero(r, c)
  {
    var m, z := EntriesOf(seq(r * c, k => 0), r, c), Zero(r, c);
    forall i | 0 <= i < r ensures m[i] == z[i] {
      forall j | 0 <= j < c ensures m[i][j] == z[i][j] {
        IndexBound(r, c, i, j);
      }
    }
  }

  class Matrix {
    var rows: nat
    var cols: nat
    var data: seq<int>

    /** The storage holds `rows * cols` entries. */
    ghost predicate Valid()
      reads this
    {
      |data| == rows * cols
    }

    function Entries(): (m: Grid)
      requires Valid()
      reads this
      ensures IsMatrix(m, rows, cols)
    {
      EntriesOf(data, rows, cols)
    }

    /** `Matrix(rows, cols)`: value-initialised storage, so the zero matrix. */
    constructor (r: nat, c: nat)
      ensures Valid() && rows == r && cols == c
      ensures Entries() == Zero(r, c)
    {
      rows, cols := r, c;
      data := seq(r * c, k => 0);
      new;
      EntriesOfZeros(r, c);
    }

    /** `operator()(row, col)`: the entry at offset `row * cols + col`. */
    function At(i: nat, j: nat): (v: int)
      requires Valid() && i < rows && j < cols
      reads this
      ensures v == Entries()[i][j]
    {
      IndexBound(rows, cols, i, j);
      data[i * cols + j]
    }

    /** Assignment through `operator()(row, col)`. */
    method Set(i: nat, j: nat, v: int)
      requires Valid() && i < rows && j < cols
      modifies this
      ensures Valid() && rows == old(rows) && cols == old(cols)
      ensures Entries() == old(Entries())[i := old(Entries())[i][j := v]]
    {
      EntriesOfUpdate(data, rows, cols, i, j, v);
      data := data[i * cols + j := v];
    }

    /** `swap`: the two matrices exchange dimensions and storage. */
    method Swap(other: Matrix)
      modifies this, other
      ensures rows == old(other.rows) && cols == old(other.cols) && data == old(other.data)
      ensures other.rows == old(rows) && other.cols == old(cols) && other.data == old(data)
    {
      var r, c, d := rows, cols, data;
      rows, cols, data := other.rows, other.cols, other.data;
      other.rows, other.cols, other.data := r, c, d;
    }
  }

  /** A fresh copy with the same dimensions and entries (`Matrix` is copied by value). */
  method Clone(m: Matrix) returns (r: Matrix)
    requires m.Valid()
    ensures fresh(r) && r.Valid() && r.rows == m.rows && r.cols == m.cols
    ensures r.Entries() == m.Entries()
  {
    r := new Matrix(m.rows, m.cols);
    r.data := m.data;
  }

  /** `make_identity`: a fresh `n x n` identity filled row by row. */
  method MakeIdentity(n: nat) returns (result: Matrix)
    ensures fresh(result) && result.Valid() && result.rows == n && result.cols == n
    ensures result.Entries() == Identity(n)
  {
    result := new Matrix(n, n);
    ghost var t := Identity(n);
    var i := 0;
    while i < n
      invariant 0 <= i <= n
      invariant result.Valid() && result.rows == n && result.cols == n
      invariant forall p, q :: 0 <= p < i && 0 <= q < n ==> result.Entries()[p][q] == t[p][q]
    {
      var j := 0;
      while j < n
        invariant 0 <= j <= n
        invariant result.Valid() && result.rows == n && result.cols == n
        invariant forall p, q :: 0 <= p < i && 0 <= q < n ==> result.Entries()[p][q] == t[p][q]
        invariant forall q :: 0 <= q < j ==> result.Entries()[i][q] == t[i][q]
      {
        result.Set(i, j, if i == j then 1 else 0);
        j := j + 1;
      }
      i := i + 1;
    }
    assert forall p :: 0 <= p < n ==> result.Entries()[p] == t[p];
  }

  /** The innermost loop of `multiply`. */
  method DotProduct(lhs: Matrix, rhs: Matrix, i: nat, j: nat) returns (value: int)
    requires lhs.Valid() && rhs.Valid() && lhs.cols == rhs.rows && i < lhs.rows && j < rhs.cols
    ensures value == Dot(lhs.Entries()[i], Col(rhs.Entries(), rhs.cols, j))
  {
    ghost var u, v := lhs.Entries()[i], Col(rhs.Entries(), rhs.cols, j);
    value := 0;
    var k := 0;
    while k < lhs.cols
      invariant 0 <= k <= lhs.cols
      invariant value == Dot(u[..k], v[..k])
    {
      DotStep(u, v, k);
      value := value + lhs.At(i, k) * rhs.At(k, j);
      k := k + 1;
    }
    assert u[..k] == u && v[..k] == v;
  }

  /** `multiply`: a fresh `lhs.rows x rhs.cols` product, or the error when the
      inner dimensions differ. */
  method Multiply(lhs: Matrix, rhs: Matrix) returns (r: Result<Matrix>)
    requires lhs.Valid() && rhs.Valid()
    ensures r.Err? <==> lhs.cols != rhs.rows
    ensures r.Err? ==> r.error == InvalidArgument(ProductMismatch)
    ensures r.Ok? ==> fresh(r.value) && r.value.Valid() && r.value.rows == lhs.rows && r.value.cols == rhs.cols
    ensures r.Ok? ==> r.value.Entries() == Product(lhs.Entries(), rhs.Entries(), rhs.cols)
  {
    if lhs.cols != rhs.rows {
      return Err(InvalidArgument(ProductMismatch));
    }
    var result := new Matrix(lhs.rows, rhs.cols);
    ghost var t := Product(lhs.Entries(), rhs.Entries(), rhs.cols);
    var i := 0;
    while i < lhs.rows
      invariant 0 <= i <= lhs.rows
      invariant result.Valid() && result.rows == lhs.rows && result.cols == rhs.cols
      invariant forall p, q :: 0 <= p < i && 0 <= q < rhs.cols ==> result.Entries()[p][q] == t[p][q]
    {
      MultiplyRow(lhs, rhs, result, i);
      i := i + 1;
    }
    assert forall p :: 0 <= p < lhs.rows ==> result.Entries()[p] == t[p];
    r := Ok(result);
  }

  /** One pass of the middle loop of `multiply`: row `i` of `result` becomes
      row `i` of the product and the other rows keep their entries. */
  method MultiplyRow(lhs: Matrix, rhs: Matrix, result: Matrix, i: nat)
    requires lhs.Valid() && rhs.Valid() && result.Valid() && result != lhs && result != rhs
    requires lhs.cols == rhs.rows && result.rows == lhs.rows && result.cols == rhs.cols && i < lhs.rows
    modifies result
    ensures result.Valid() && result.rows == old(result.rows) && result.cols == old(result.cols)
    ensures forall q :: 0 <= q < rhs.cols ==> result.Entries()[i][q] == Product(lhs.Entries(), rhs.Entries(), rhs.cols)[i][q]
    ensures forall p :: 0 <= p < result.rows && p != i ==> result.Entries()[p] == old(result.Entries())[p]
  {
    var j := 0;
    while j < rhs.cols
      invariant 0 <= j <= rhs.cols
      invariant result.Valid() && result.rows == old(result.rows) && result.cols == old(result.cols)
      invariant forall p :: 0 <= p < result.rows && p != i ==> result.Entries()[p] == old(result.Entries())[p]
      invariant forall q :: 0 <= q < j ==> result.Entries()[i][q] == Dot(lhs.Entries()[i], Col(rhs.Entries(), rhs.cols, q))
    {
      var value := DotProduct(lhs, rhs, i, j);
      result.Set(i, j, value);
      j := j + 1;
    }
  }

  /** `add`: a fresh element-wise sum over the flat storage, or the error when
      the shapes differ. */
  method Add(lhs: Matrix, rhs: Matrix) returns (r: Result<Matrix>)
    requires lhs.Valid() && rhs.Valid()
    ensures r.Err? <==> lhs.rows != rhs.rows || lhs.cols != rhs.cols
    ensures r.Err? ==> r.error == InvalidArgument(SumMismatch)
    ensures r.Ok? ==> fresh(r.value) && r.value.Valid() && r.value.rows == lhs.rows && r.value.cols == lhs.cols
    ensures r.Ok? ==> r.value.Entries() == Sum(lhs.Entries(), rhs.Entries())
  {
    if lhs.rows != rhs.rows || lhs.cols != rhs.cols {
      return Err(InvalidArgument(SumMismatch));
    }
    var result := new Matrix(lhs.rows, lhs.cols);
    var a, b := lhs.data, rhs.data;
    var i := 0;
    while i < |a|
      invariant 0 <= i <= |a|
      invariant result.Valid() && result.rows == lhs.rows && result.cols == lhs.cols
      invariant forall k :: 0 <= k < i ==> result.data[k] == a[k] + b[k]
    {
      result.data := result.data[i := a[i] + b[i]];
      i := i + 1;
    }
    assert result.data == seq(|a|, k requires 0 <= k < |a| => a[k] + b[k]);
    EntriesOfPointwise(a, b, 0, lhs.rows, lhs.cols);
    r := Ok(result);
  }

  /** `subtract`: a fresh element-wise difference over the flat storage, or the
      error when the shapes differ. */
  method Subtract(lhs: Matrix, rhs: Matrix) returns (r: Result<Matrix>)
    requires lhs.Valid() && rhs.Valid()
    ensures r.Err? <==> lhs.rows != rhs.rows || lhs.cols != rhs.cols
    ensures r.Err? ==> r.error == InvalidArgument(DifferenceMismatch)
    ensures r.Ok? ==> fresh(r.value) && r.value.Valid() && r.value.rows == lhs.rows && r.value.cols == lhs.cols
    ensures r.Ok? ==> r.value.Entries() == Difference(lhs.Entries(), rhs.Entries())
  {
    if lhs.rows != rhs.rows || lhs.cols != rhs.cols {
      return Err(InvalidArgument(DifferenceMismatch));
    }
    var result := new Matrix(lhs.rows, lhs.cols);
    var a, b := lhs.data, rhs.data;
    var i := 0;
    while i < |a|
      invariant 0 <= i <= |a|
      invariant result.Valid() && result.rows == lhs.rows && result.cols == lhs.cols
      invariant forall k :: 0 <= k < i ==> result.data[k] == a[k] - b[k]
    {
      result.data := result.data[i := a[i] - b[i]];
      i := i + 1;
    }
    assert result.data == seq(|a|, k requires 0 <= k < |a| => a[k] - b[k]);
    EntriesOfPointwise(a, b, 0, lhs.rows, lhs.cols);
    r := Ok(result);
  }

  /** `scale`: a fresh matrix of the same shape, every entry times `scalar`. */
  method Scale(mat: Matrix, scalar: int) returns (result: Matrix)
    requires mat.Valid()
    ensures fresh(result) && result.Valid() && result.rows == mat.rows && result.cols == mat.cols
    ensures result.Entries() == Scaled(mat.Entries(), scalar)
  {
    result := new Matrix(mat.rows, mat.cols);
    var a := mat.data;
    var i := 0;
    while i < |a|
      invariant 0 <= i <= |a|
      invariant result.Valid() && result.rows == mat.rows && result.cols == mat.cols
      invariant forall k :: 0 <= k < i ==> result.data[k] == a[k] * scalar
    {
      result.data := result.data[i := a[i] * scalar];
      i := i + 1;
    }
    assert result.data == seq(|a|, k requires 0 <= k < |a| => a[k] * scalar);
    EntriesOfPointwise(a, a, scalar, mat.rows, mat.cols);
  }

  /** `matrix_power`: `mat^power` by square-and-multiply on fresh products, or
      the error for a non-square matrix.  Power 0 is the identity. */
  method MatrixPower(mat: Matrix, power: nat) returns (r: Result<Matrix>)
    requires mat.Valid()
    ensures r.Err? <==> mat.rows != mat.cols
    ensures r.Err? ==> r.error == InvalidArgument(PowerNotSquare)
    ensures r.Ok? ==> fresh(r.value) && r.value.Valid() && r.value.rows == r.value.cols == mat.rows
    ensures r.Ok? ==> r.value.Entries() == Power(mat.Entries(), mat.rows, power)
  {
    if mat.rows != mat.cols {
      return Err(InvalidArgument(PowerNotSquare));
    }
    var n := mat.rows;
    var result := MakeIdentity(n);
    if power == 0 {
      return Ok(result);
    }
    ghost var m := mat.Entries();
    var base := Clone(mat);
    IdentityLeft(m, n, n);
    assert base.Entries() == Power(m, n, 1);
    var exponent := power;
    ghost var rp, bp := 0, 1;
    while exponent > 0
      invariant result.Valid() && base.Valid()
      invariant result.rows == result.cols == base.rows == base.cols == n
      invariant fresh(result) && fresh(base)
      invariant result.Entries() == Power(m, n, rp) && base.Entries() == Power(m, n, bp)
      invariant rp + bp * exponent == power
    {
      result, base, exponent, rp, bp := PowerRound(m, n, result, base, exponent, rp, bp);
    }
    r := Ok(result);
  }

  /** One pass of the loop of `matrix_power`: an odd exponent replaces the
      result by `result * base`, the exponent halves, and while it is non-zero
      the base is replaced by `base * base`.  `rp + bp * exponent` is kept. */
  method PowerRound(ghost m: Grid, n: nat, result: Matrix, base: Matrix, exponent: nat, ghost rp: nat, ghost bp: nat)
    returns (result': Matrix, base': Matrix, exponent': nat, ghost rp': nat, ghost bp': nat)
    requires IsMatrix(m, n, n) && exponent > 0
    requires result.Valid() && base.Valid() && result.rows == result.cols == base.rows == base.cols == n
    requires result.Entries() == Power(m, n, rp) && base.Entries() == Power(m, n, bp)
    ensures result'.Valid() && base'.Valid() && result'.rows == result'.cols == base'.rows == base'.cols == n
    ensures (result' == result || fresh(result')) && (base' == base || fresh(base'))
    ensures result'.Entries() == Power(m, n, rp') && base'.Entries() == Power(m, n, bp')
    ensures exponent' == exponent / 2
    ensures rp' + bp' * exponent' == rp + bp * exponent
  {
    SquareMultiplyStep(rp, bp, exponent);
    result', base', rp', bp' := result, base, rp, bp;
    if exponent % 2 == 1 {
      var product := Multiply(result, base);
      PowerAdd(m, n, rp, bp);
      result', rp' := product.value, rp + bp;
    }
    exponent' := exponent / 2;
    if exponent' != 0 {
      var square := Multiply(base, base);
      PowerAdd(m, n, bp, bp);
      base', bp' := square.value, bp + bp;
    }
  }

  /** `swap_rows`: rows `lhs` and `rhs` exchange their entries.  There is no
      bounds check, so distinct rows must both exist; equal rows return at once. */
  method SwapRowsInPlace(mat: Matrix, lhs: nat, rhs: nat)
    requires mat.Valid()
    requires lhs == rhs || (lhs < mat.rows && rhs < mat.rows)
    modifies mat
    ensures mat.Valid() && mat.rows == old(mat.rows) && mat.cols == old(mat.cols)
    ensures lhs == rhs ==> mat.data == old(mat.data)
    ensures lhs != rhs ==> mat.Entries() == SwapRows(old(mat.Entries()), lhs, rhs)
  {
    if lhs == rhs {
      return;
    }
    ghost var t := SwapRows(mat.Entries(), lhs, rhs);
    var j := 0;
    while j < mat.cols
      invariant 0 <= j <= mat.cols
      invariant mat.Valid() && mat.rows == old(mat.rows) && mat.cols == old(mat.cols)
      invariant forall p :: 0 <= p < mat.rows && p != lhs && p != rhs ==> mat.Entries()[p] == t[p]
      invariant forall q :: 0 <= q < j ==> mat.Entries()[lhs][q] == t[lhs][q] && mat.Entries()[rhs][q] == t[rhs][q]
      invariant forall q :: j <= q < mat.cols ==> mat.Entries()[lhs][q] == t[rhs][q] && mat.Entries()[rhs][q] == t[lhs][q]
    {
      var a, b := mat.At(lhs, j), mat.At(rhs, j);
      mat.Set(lhs, j, b);
      mat.Set(rhs, j, a);
      j := j + 1;
    }
    assert forall p :: 0 <= p < mat.rows ==> mat.Entries()[p] == t[p];
  }

  /** The argument check of `solve_linear_system`. */
  function SolveCheck(aRows: nat, aCols: nat, bRows: nat): (r: Outcome)
    ensures r.Pass? <==> aRows == aCols == bRows
    ensures r.Fail? ==> r.error == InvalidArgument(SolveNotSquare)
  {
    if aRows != aCols || aRows != bRows then Fail(InvalidArgument(SolveNotSquare)) else Pass
  }

  function Abs(x: int): nat
  {
    if x < 0 then -x else x
  }

  /** The partial pivot search of elimination step `k`: the first row at or
      below `k` with the largest magnitude in column `k`, or the singular-matrix
      error when that magnitude is zero. */
  method SelectPivot(a: Matrix, k: nat) returns (r: Result<nat>)
    requires a.Valid() && a.rows == a.cols && k < a.rows
    ensures r.Err? <==> forall i :: k <= i < a.rows ==> a.Entries()[i][k] == 0
    ensures r.Err? ==> r.error == RuntimeError(Singular)
    ensures r.Ok? ==> k <= r.value < a.rows
    ensures r.Ok? ==> forall i :: k <= i < a.rows ==> Abs(a.Entries()[i][k]) <= Abs(a.Entries()[r.value][k])
    ensures r.Ok? ==> forall i :: k <= i < r.value ==> Abs(a.Entries()[i][k]) < Abs(a.Entries()[r.value][k])
  {
    ghost var e := a.Entries();
    var pivotRow := k;
    var pivotValue := Abs(a.At(k, k));
    var i := k + 1;
    while i < a.rows
      invariant k + 1 <= i <= a.rows
      invariant k <= pivotRow < i && pivotValue == Abs(e[pivotRow][k])
      invariant forall p :: k <= p < i ==> Abs(e[p][k]) <= pivotValue
      invariant forall p :: k <= p < pivotRow ==> Abs(e[p][k]) < pivotValue
    {
      var candidate := Abs(a.At(i, k));
      if candidate > pivotValue {
        pivotValue := candidate;
        pivotRow := i;
      }
      i := i + 1;
    }
    if pivotValue == 0 {
      r := Err(RuntimeError(Singular));
    } else {
      r := Ok(pivotRow);
    }
  }
}
