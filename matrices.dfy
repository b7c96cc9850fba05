/** Dense matrices over the integers, as the specification the three matrix
    back ends (src/linalg/backends/cpu/matrix_ops_cpu.hpp, src/linalg/ops/matrix_ops.hpp
    and src/expokit/matrix.hpp) are proved against.

    A matrix is the sequence of its rows.  Its column count is passed separately
    where a matrix may have no rows, so that a 0 x 3 matrix and a 0 x 5 matrix
    stay apart.  The element type of the library is any arithmetic type; the
    integers stand in for it as a ring, which is what every operation here
    except the floating-point solver relies on. */
module Matrices {

  type Grid = seq<seq<int>>

  /** `m` has `r` rows of `c` entries each. */
  predicate IsMatrix(m: Grid, r: nat, c: nat)
  {
    |m| == r && forall i :: 0 <= i < r ==> |m[i]| == c
  }

  /** Two matrices of the same shape. */
  predicate SameShape(a: Grid, b: Grid)
  {
    |a| == |b| && forall i :: 0 <= i < |a| ==> |a[i]| == |b[i]|
  }

  /** The `n x n` identity: 1 on the diagonal, 0 elsewhere. */
  function Identity(n: nat): (m: Grid)
    ensures IsMatrix(m, n, n)
  {
    seq(n, i requires 0 <= i < n => seq(n, j requires 0 <= j < n => if i == j then 1 else 0))
  }

  /** The `r x c` zero matrix. */
  function Zero(r: nat, c: nat): (m: Grid)
    ensures IsMatrix(m, r, c)
  {
    seq(r, i requires 0 <= i < r => seq(c, j requires 0 <= j < c => 0))
  }

  /** `sum_k u[k] * v[k]`, accumulated from `k = 0` upwards as the loops do. */
  function Dot(u: seq<int>, v: seq<int>): int
    requires |u| == |v|
  {
    if u == [] then 0 else Dot(u[..|u| - 1], v[..|v| - 1]) + u[|u| - 1] * v[|v| - 1]
  }

  /** Column `j` of a matrix with `c` columns. */
  function Col(m: Grid, c: nat, j: nat): (v: seq<int>)
    requires IsMatrix(m, |m|, c) && j < c
    ensures |v| == |m|
  {
    seq(|m|, k requires 0 <= k < |m| => m[k][j])
  }

  /** The matrix product of an `r x n` and an `n x c` matrix. */
  function Product(a: Grid, b: Grid, c: nat): (p: Grid)
    requires IsMatrix(a, |a|, |b|) && IsMatrix(b, |b|, c)
    ensures IsMatrix(p, |a|, c)
  {
    seq(|a|, i requires 0 <= i < |a| => seq(c, j requires 0 <= j < c => Dot(a[i], Col(b, c, j))))
  }

  function Sum(a: Grid, b: Grid): (s: Grid)
    requires SameShape(a, b)
    ensures SameShape(s, a)
  {
    seq(|a|, i requires 0 <= i < |a| => seq(|a[i]|, j requires 0 <= j < |a[i]| => a[i][j] + b[i][j]))
  }

  function Difference(a: Grid, b: Grid): (s: Grid)
    requires SameShape(a, b)
    ensures SameShape(s, a)
  {
    seq(|a|, i requires 0 <= i < |a| => seq(|a[i]|, j requires 0 <= j < |a[i]| => a[i][j] - b[i][j]))
  }

  /** Every entry times `s` (the element on the left, as `mat * scalar`). */
  function Scaled(m: Grid, s: int): (r: Grid)
    ensures SameShape(r, m)
  {
    seq(|m|, i requires 0 <= i < |m| => seq(|m[i]|, j requires 0 <= j < |m[i]| => m[i][j] * s))
  }

  /** Rows `l` and `r` exchanged. */
  function SwapRows(m: Grid, l: nat, r: nat): (s: Grid)
    requires l < |m| && r < |m|
    ensures |s| == |m|
  {
    m[l := m[r]][r := m[l]]
  }

  /** `m` to the power `p`, as `p` repeated multiplications of the identity by `m`. */
  function Power(m: Grid, n: nat, p: nat): (r: Grid)
    requires IsMatrix(m, n, n)
    ensures IsMatrix(r, n, n)
  {
    if p == 0 then Identity(n) else Product(Power(m, n, p - 1), m, n)
  }

  // ---------------------------------------------------------------------------
  // Sums of integer-valued functions

  function SumTo(f: nat -> int, n: nat): int
  {
    if n == 0 then 0 else SumTo(f, n - 1) + f(n - 1)
  }

  lemma {:induction false} SumCongruent(f: nat -> int, g: nat -> int, n: nat)
    requires forall k: nat :: k < n ==> f(k) == g(k)
    ensures SumTo(f, n) == SumTo(g, n)
  {
    if n > 0 {
      SumCongruent(f, g, n - 1);
    }
  }

  lemma {:induction false} SumPointwiseAdd(f: nat -> int, g: nat -> int, h: nat -> int, n: nat)
    requires forall k: nat :: k < n ==> h(k) == f(k) + g(k)
    ensures SumTo(h, n) == SumTo(f, n) + SumTo(g, n)
  {
    if n > 0 {
      SumPointwiseAdd(f, g, h, n - 1);
    }
  }

  lemma {:induction false} SumScaleRight(f: nat -> int, x: int, g: nat -> int, n: nat)
    requires forall k: nat :: k < n ==> g(k) == f(k) * x
    ensures SumTo(g, n) == SumTo(f, n) * x
  {
    if n > 0 {
      SumScaleRight(f, x, g, n - 1);
      assert SumTo(g, n) == SumTo(f, n - 1) * x + f(n - 1) * x;
      MulDistRight(SumTo(f, n - 1), f(n - 1), x);
    }
  }

  lemma {:induction false} SumScaleLeft(x: int, f: nat -> int, g: nat -> int, n: nat)
    requires forall k: nat :: k < n ==> g(k) == x * f(k)
    ensures SumTo(g, n) == x * SumTo(f, n)
  {
    if n > 0 {
      SumScaleLeft(x, f, g, n - 1);
      assert SumTo(g, n) == x * SumTo(f, n - 1) + x * f(n - 1);
      MulDistRight(SumTo(f, n - 1), f(n - 1), x);
    }
  }

  lemma MulDistRight(p: int, q: int, x: int)
    ensures (p + q) * x == p * x + q * x && x * (p + q) == x * p + x * q
  {
  }

  /** For a fixed outer index `l`, the inner sum over `k`. */
  function InnerOverK(g: (nat, nat) -> int, n: nat): nat -> int
  {
    (l: nat) => SumTo((k: nat) => g(k, l), n)
  }

  /** For a fixed outer index `k`, the inner sum over `l`. */
  function InnerOverL(g: (nat, nat) -> int, m: nat): nat -> int
  {
    (k: nat) => SumTo((l: nat) => g(k, l), m)
  }

  /** A finite double sum may be taken in either order. */
  lemma {:induction false} SumSwap(g: (nat, nat) -> int, n: nat, m: nat)
    ensures SumTo(InnerOverK(g, n), m) == SumTo(InnerOverL(g, m), n)
  {
    if m > 0 {
      SumSwap(g, n, m - 1);
      var last := (k: nat) => g(k, m - 1);
      assert InnerOverK(g, n)(m - 1) == SumTo(last, n);
      forall k: nat | k < n ensures InnerOverL(g, m)(k) == InnerOverL(g, m - 1)(k) + last(k) {
        assert InnerOverL(g, m)(k) == SumTo((l: nat) => g(k, l), m);
      }
      SumPointwiseAdd(InnerOverL(g, m - 1), last, InnerOverL(g, m), n);
    } else {
      forall k: nat | k < n ensures InnerOverL(g, 0)(k) == 0 {
        assert InnerOverL(g, 0)(k) == SumTo((l: nat) => g(k, l), 0);
      }
      ZeroSum(InnerOverL(g, 0), n);
    }
  }

  // ---------------------------------------------------------------------------
  // Dot products

  /** Accumulating one more term of a dot product. */
  lemma DotStep(u: seq<int>, v: seq<int>, k: nat)
    requires |u| == |v| && k < |u|
    ensures Dot(u[..k + 1], v[..k + 1]) == Dot(u[..k], v[..k]) + u[k] * v[k]
  {
    assert u[..k + 1][..k] == u[..k] && v[..k + 1][..k] == v[..k];
  }

  /** The dot product as a sum over the common index. */
  lemma {:induction false} DotAsSum(u: seq<int>, v: seq<int>, f: nat -> int)
    requires |u| == |v|
    requires forall k: nat :: k < |u| ==> f(k) == u[k] * v[k]
    ensures Dot(u, v) == SumTo(f, |u|)
  {
    if u != [] {
      var n := |u|;
      DotAsSum(u[..n - 1], v[..n - 1], f);
    }
  }

  /** A dot product with a unit vector picks one entry. */
  lemma {:induction false} DotUnit(u: seq<int>, v: seq<int>, i: nat)
    requires |u| == |v| && i < |u|
    requires forall k :: 0 <= k < |u| ==> u[k] == if k == i then 1 else 0
    ensures Dot(u, v) == v[i] && Dot(v, u) == v[i]
  {
    var f := (k: nat) => if k < |u| then u[k] * v[k] else 0;
    var g := (k: nat) => if k < |u| then v[k] * u[k] else 0;
    DotAsSum(u, v, f);
    DotAsSum(v, u, g);
    UnitSum(f, i, v[i], |u|);
    UnitSum(g, i, v[i], |u|);
  }

  /** A sum whose terms vanish except at `i` is the term at `i`. */
  lemma {:induction false} UnitSum(f: nat -> int, i: nat, x: int, n: nat)
    requires i < n && f(i) == x
    requires forall k: nat :: k < n && k != i ==> f(k) == 0
    ensures SumTo(f, n) == x
  {
    if n - 1 == i {
      ZeroSum(f, n - 1);
    } else {
      UnitSum(f, i, x, n - 1);
    }
  }

  lemma {:induction false} ZeroSum(f: nat -> int, n: nat)
    requires forall k: nat :: k < n ==> f(k) == 0
    ensures SumTo(f, n) == 0
  {
    if n > 0 {
      ZeroSum(f, n - 1);
    }
  }

  // ---------------------------------------------------------------------------
  // The identity and associativity

  /** The identity is a left unit of the product. */
  lemma IdentityLeft(m: Grid, n: nat, c: nat)
    requires IsMatrix(m, n, c)
    ensures Product(Identity(n), m, c) == m
  {
    var p := Product(Identity(n), m, c);
    forall i | 0 <= i < n ensures p[i] == m[i] {
      forall j | 0 <= j < c ensures p[i][j] == m[i][j] {
        DotUnit(Identity(n)[i], Col(m, c, j), i);
      }
    }
  }

  /** The identity is a right unit of the product. */
  lemma IdentityRight(m: Grid, r: nat, n: nat)
    requires IsMatrix(m, r, n)
    ensures Product(m, Identity(n), n) == m
  {
    var p := Product(m, Identity(n), n);
    forall i | 0 <= i < r ensures p[i] == m[i] {
      forall j | 0 <= j < n ensures p[i][j] == m[i][j] {
        DotUnit(Col(Identity(n), n, j), m[i], j);
      }
    }
  }

  /** The matrix product is associative. */
  lemma ProductAssoc(a: Grid, b: Grid, cm: Grid, c: nat, d: nat)
    requires IsMatrix(a, |a|, |b|) && IsMatrix(b, |b|, c) && IsMatrix(cm, c, d)
    ensures Product(Product(a, b, c), cm, d) == Product(a, Product(b, cm, d), d)
  {
    var lhs, rhs := Product(Product(a, b, c), cm, d), Product(a, Product(b, cm, d), d);
    forall i | 0 <= i < |a| ensures lhs[i] == rhs[i] {
      forall j | 0 <= j < d ensures lhs[i][j] == rhs[i][j] {
        ProductAssocAt(a, b, cm, c, d, i, j);
      }
    }
  }

  /** One entry of `ProductAssoc`: both sides are the double sum of
      `a[i][k] * b[k][l] * cm[l][j]`. */
  lemma ProductAssocAt(a: Grid, b: Grid, cm: Grid, c: nat, d: nat, i: nat, j: nat)
    requires IsMatrix(a, |a|, |b|) && IsMatrix(b, |b|, c) && IsMatrix(cm, c, d)
    requires i < |a| && j < d
    ensures Product(Product(a, b, c), cm, d)[i][j] == Product(a, Product(b, cm, d), d)[i][j]
  {
    var n := |b|;
    var g := (k: nat, l: nat) => if k < n && l < c then a[i][k] * b[k][l] * cm[l][j] else 0;
    AssocLeft(a, b, cm, c, d, i, j, g);
    AssocRight(a, b, cm, c, d, i, j, g);
    SumSwap(g, n, c);
  }

  lemma AssocLeft(a: Grid, b: Grid, cm: Grid, c: nat, d: nat, i: nat, j: nat, g: (nat, nat) -> int)
    requires IsMatrix(a, |a|, |b|) && IsMatrix(b, |b|, c) && IsMatrix(cm, c, d)
    requires i < |a| && j < d
    requires forall k: nat, l: nat :: g(k, l) == if k < |b| && l < c then a[i][k] * b[k][l] * cm[l][j] else 0
    ensures Product(Product(a, b, c), cm, d)[i][j] == SumTo(InnerOverK(g, |b|), c)
  {
    var ab := Product(a, b, c);
    var col := Col(cm, d, j);
    var f := (l: nat) => if l < c then ab[i][l] * col[l] else 0;
    DotAsSum(ab[i], col, f);
    forall l: nat | l < c ensures f(l) == InnerOverK(g, |b|)(l) {
      var e := (k: nat) => if k < |b| then a[i][k] * b[k][l] else 0;
      DotAsSum(a[i], Col(b, c, l), e);
      SumScaleRight(e, cm[l][j], (k: nat) => g(k, l), |b|);
    }
    SumCongruent(f, InnerOverK(g, |b|), c);
  }

  lemma AssocRight(a: Grid, b: Grid, cm: Grid, c: nat, d: nat, i: nat, j: nat, g: (nat, nat) -> int)
    requires IsMatrix(a, |a|, |b|) && IsMatrix(b, |b|, c) && IsMatrix(cm, c, d)
    requires i < |a| && j < d
    requires forall k: nat, l: nat :: g(k, l) == if k < |b| && l < c then a[i][k] * b[k][l] * cm[l][j] else 0
    ensures Product(a, Product(b, cm, d), d)[i][j] == SumTo(InnerOverL(g, c), |b|)
  {
    var bc := Product(b, cm, d);
    var col := Col(bc, d, j);
    var f := (k: nat) => if k < |b| then a[i][k] * col[k] else 0;
    DotAsSum(a[i], col, f);
    forall k: nat | k < |b| ensures f(k) == InnerOverL(g, c)(k) {
      AssocRightTerm(a, b, cm, c, d, i, j, g, k);
    }
    SumCongruent(f, InnerOverL(g, c), |b|);
  }

  /** Term `k` of `AssocRight`: `a[i][k]` times entry `(k, j)` of `b * cm`. */
  lemma AssocRightTerm(a: Grid, b: Grid, cm: Grid, c: nat, d: nat, i: nat, j: nat, g: (nat, nat) -> int, k: nat)
    requires IsMatrix(a, |a|, |b|) && IsMatrix(b, |b|, c) && IsMatrix(cm, c, d)
    requires i < |a| && j < d && k < |b|
    requires forall k: nat, l: nat :: g(k, l) == if k < |b| && l < c then a[i][k] * b[k][l] * cm[l][j] else 0
    ensures a[i][k] * Product(b, cm, d)[k][j] == InnerOverL(g, c)(k)
  {
    var e := (l: nat) => if l < c then b[k][l] * cm[l][j] else 0;
    DotAsSum(b[k], Col(cm, d, j), e);
    forall l: nat | l < c ensures g(k, l) == a[i][k] * e(l) {
      MulAssoc(a[i][k], b[k][l], cm[l][j]);
    }
    SumScaleLeft(a[i][k], e, (l: nat) => g(k, l), c);
  }

  lemma MulAssoc(x: int, y: int, z: int)
    ensures x * y * z == x * (y * z)
  {
  }

  // ---------------------------------------------------------------------------
  // Powers

  /** Powers of one matrix multiply by adding exponents. */
  lemma {:induction false} PowerAdd(m: Grid, n: nat, p: nat, q: nat)
    requires IsMatrix(m, n, n)
    ensures Product(Power(m, n, p), Power(m, n, q), n) == Power(m, n, p + q)
  {
    if q == 0 {
      IdentityRight(Power(m, n, p), n, n);
    } else {
      var a, b := Power(m, n, p), Power(m, n, q - 1);
      PowerAdd(m, n, p, q - 1);
      ProductAssoc(a, b, m, n, n);
      assert Power(m, n, q) == Product(b, m, n);
      assert Power(m, n, p + q) == Product(Power(m, n, p + q - 1), m, n);
    }
  }

  /** `mat^2` and `mat^3` are the repeated products `mat * mat` and
      `(mat * mat) * mat`. */
  lemma PowerIsRepeatedProduct(m: Grid, n: nat)
    requires IsMatrix(m, n, n)
    ensures Power(m, n, 2) == Product(m, m, n)
    ensures Power(m, n, 3) == Product(Product(m, m, n), m, n)
  {
    IdentityLeft(m, n, n);
    assert Power(m, n, 1) == m;
  }

  /** One round of square-and-multiply: with `result = m^r` and `base = m^q`,
      an odd exponent multiplies the base into the result, and the base is
      squared while the exponent halves, keeping `r + q * e` fixed. */
  lemma SquareMultiplyStep(r: nat, q: nat, e: nat)
    requires e > 0
    ensures (if e % 2 == 1 then r + q else r) + (q + q) * (e / 2) == r + q * e
  {
  }

  // ---------------------------------------------------------------------------
  // Element-wise operations

  /** Subtracting undoes adding. */
  lemma DifferenceUndoesSum(a: Grid, b: Grid)
    requires SameShape(a, b)
    ensures Difference(Sum(a, b), b) == a
  {
    var d := Difference(Sum(a, b), b);
    forall i | 0 <= i < |a| ensures d[i] == a[i] {
    }
  }

  /** Scaling by a product is scaling twice. */
  lemma ScaledTwice(m: Grid, s: int, t: int)
    ensures Scaled(Scaled(m, s), t) == Scaled(m, s * t)
  {
    var l, r := Scaled(Scaled(m, s), t), Scaled(m, s * t);
    forall i | 0 <= i < |m| ensures l[i] == r[i] {
      forall j | 0 <= j < |m[i]| ensures l[i][j] == r[i][j] {
        MulAssoc(m[i][j], s, t);
      }
    }
  }

  /** Exchanging the same two rows twice restores the matrix. */
  lemma SwapRowsInvolution(m: Grid, l: nat, r: nat)
    requires l < |m| && r < |m|
    ensures SwapRows(SwapRows(m, l, r), l, r) == m
  {
  }

  /** The 2 x 3 by 3 x 2 product of the library's own example. */
  lemma ProductExample()
    ensures Product([[1, 2, 3], [4, 5, 6]], [[7, 8], [9, 10], [11, 12]], 2) == [[58, 64], [139, 154]]
  {
    var a, b := [[1, 2, 3], [4, 5, 6]], [[7, 8], [9, 10], [11, 12]];
    var p := Product(a, b, 2);
    assert Col(b, 2, 0) == [7, 9, 11] && Col(b, 2, 1) == [8, 10, 12];
    Dot3(a[0], Col(b, 2, 0));
    Dot3(a[0], Col(b, 2, 1));
    Dot3(a[1], Col(b, 2, 0));
    Dot3(a[1], Col(b, 2, 1));
    assert p[0] == [58, 64] && p[1] == [139, 154];
  }

  lemma Dot3(u: seq<int>, v: seq<int>)
    requires |u| == |v| == 3
    ensures Dot(u, v) == u[0] * v[0] + u[1] * v[1] + u[2] * v[2]
  {
    var u2, v2 := u[..2], v[..2];
    var u1, v1 := u2[..1], v2[..1];
    assert Dot(u1, v1) == Dot(u1[..0], v1[..0]) + u[0] * v[0];
    assert Dot(u2, v2) == Dot(u1, v1) + u[1] * v[1];
    assert Dot(u, v) == Dot(u2, v2) + u[2] * v[2];
  }
}
