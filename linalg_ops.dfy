/** The allocating front end of the dense matrix operations
    (src/linalg/ops/matrix_ops.hpp).

    These functions check their arguments, allocate a fresh rows x cols
    tensor and hand the work to the back end, here `CpuMatrixOps`.  Backend
    selection by tag is left out: there is one back end.  `matrix_power_into`
    is the one operation with a loop of its own, square-and-multiply over the
    bits of the exponent. */
module LinalgOps {
  import opened Wrappers
  import opened Matrices
  import Cpu = CpuMatrixOps

  const PowerOutMismatch := "output matrix has incompatible dimensions for matrix_power"
  const RowCountMismatch := "solve_linear_system requires matching row counts"

  /** `multiply`: the inner dimensions must agree; the result is a fresh
      lhs.rows x rhs.cols matrix holding the product. */
  method Multiply(lhs: array2<int>, rhs: array2<int>) returns (r: Result<array2<int>>)
    ensures r.Err? <==> lhs.Length1 != rhs.Length0
    ensures r.Err? ==> r.error == InvalidArgument(Cpu.ProductMismatch)
    ensures r.Ok? ==> fresh(r.value) && r.value.Length0 == lhs.Length0 && r.value.Length1 == rhs.Length1
    ensures r.Ok? ==> Cpu.Entries(r.value) == Product(Cpu.Entries(lhs), Cpu.Entries(rhs), rhs.Length1)
  {
    if lhs.Length1 != rhs.Length0 {
      return Err(InvalidArgument(Cpu.ProductMismatch));
    }
    var result := new int[lhs.Length0, rhs.Length1];
    var outcome := Cpu.Multiply(lhs, rhs, result);
    r := Ok(result);
  }

  /** `add`: the shapes must match; the result is a fresh matrix holding the sum. */
  method Add(lhs: array2<int>, rhs: array2<int>) returns (r: Result<array2<int>>)
    ensures r.Err? <==> Cpu.RequireSameShape(lhs.Length0, lhs.Length1, rhs.Length0, rhs.Length1).Fail?
    ensures r.Err? ==> r.error == InvalidArgument(Cpu.ShapeMismatch)
    ensures r.Ok? ==> fresh(r.value) && r.value.Length0 == lhs.Length0 && r.value.Length1 == lhs.Length1
    ensures r.Ok? ==> Cpu.Entries(r.value) == Sum(Cpu.Entries(lhs), Cpu.Entries(rhs))
  {
    var check := Cpu.RequireSameShape(lhs.Length0, lhs.Length1, rhs.Length0, rhs.Length1);
    if check.Fail? {
      return Err(check.error);
    }
    var result := new int[lhs.Length0, lhs.Length1];
    var outcome := Cpu.Add(lhs, rhs, result);
    r := Ok(result);
  }

  /** `subtract`: the shapes must match; the result is a fresh matrix holding the difference. */
  method Subtract(lhs: array2<int>, rhs: array2<int>) returns (r: Result<array2<int>>)
    ensures r.Err? <==> Cpu.RequireSameShape(lhs.Length0, lhs.Length1, rhs.Length0, rhs.Length1).Fail?
    ensures r.Err? ==> r.error == InvalidArgument(Cpu.ShapeMismatch)
    ensures r.Ok? ==> fresh(r.value) && r.value.Length0 == lhs.Length0 && r.value.Length1 == lhs.Length1
    ensures r.Ok? ==> Cpu.Entries(r.value) == Difference(Cpu.Entries(lhs), Cpu.Entries(rhs))
  {
    var check := Cpu.RequireSameShape(lhs.Length0, lhs.Length1, rhs.Length0, rhs.Length1);
    if check.Fail? {
      return Err(check.error);
    }
    var result := new int[lhs.Length0, lhs.Length1];
    var outcome := Cpu.Subtract(lhs, rhs, result);
    r := Ok(result);
  }

  /** `scale`: a fresh matrix of the same shape holding every entry times `scalar`. */
  method Scale(mat: array2<int>, scalar: int) returns (result: array2<int>)
    ensures fresh(result) && result.Length0 == mat.Length0 && result.Length1 == mat.Length1
    ensures Cpu.Entries(result) == Scaled(Cpu.Entries(mat), scalar)
  {
    result := new int[mat.Length0, mat.Length1];
    var outcome := Cpu.Scale(mat, scalar, result);
  }

  /** `make_identity`: a fresh `order x order` identity. */
  method MakeIdentity(order: nat) returns (result: array2<int>)
    ensures fresh(result) && result.Length0 == order && result.Length1 == order
    ensures Cpu.Entries(result) == Identity(order)
  {
    result := new int[order, order];
    var outcome := Cpu.FillIdentity(result);
  }

  /** The three argument checks of `matrix_power_into`, in order: `mat`
      square, `out` square, and both the same size. */
  function PowerCheck(mat: (nat, nat), out: (nat, nat)): (r: Outcome)
    ensures r.Pass? <==> mat.0 == mat.1 == out.0 == out.1
    ensures mat.0 != mat.1 ==> r == Fail(InvalidArgument(Cpu.NotSquare))
    ensures mat.0 == mat.1 && out.0 != out.1 ==> r == Fail(InvalidArgument(Cpu.NotSquare))
    ensures mat.0 == mat.1 && out.0 == out.1 && mat.0 != out.0 ==> r == Fail(InvalidArgument(PowerOutMismatch))
  {
    var first := Cpu.RequireSquare(mat.0, mat.1);
    if first.Fail? then first
    else
      var second := Cpu.RequireSquare(out.0, out.1);
      if second.Fail? then second
      else if mat.0 != out.0 || mat.1 != out.1 then Fail(InvalidArgument(PowerOutMismatch))
      else Pass
  }

  /** `matrix_power_into`: after the checks, `out` holds `mat` to the power
      `power`.  The exponent is halved bit by bit (`exponent & 1` is
      `exponent % 2`, `exponent >>= 1` is `exponent / 2`); the loop keeps
      `result = mat^rp` and `base = mat^bp` with `rp + bp * exponent = power`,
      so it ends with `result = mat^power`. */
  method MatrixPowerInto(mat: array2<int>, power: nat, out: array2<int>) returns (r: Outcome)
    modifies out
    ensures r == PowerCheck((mat.Length0, mat.Length1), (out.Length0, out.Length1))
    ensures r.Pass? ==> Cpu.Entries(out) == Power(old(Cpu.Entries(mat)), mat.Length0, power)
    ensures r.Pass? && out != mat ==> Cpu.Entries(out) == Power(Cpu.Entries(mat), mat.Length0, power)
    ensures r.Fail? ==> unchanged(out)
  {
    r := PowerCheck((mat.Length0, mat.Length1), (out.Length0, out.Length1));
    if r.Fail? {
      return;
    }
    var n := mat.Length0;
    ghost var m := Cpu.Entries(mat);
    var result := new int[n, n];
    var outcome := Cpu.FillIdentity(result);
    assert Cpu.Entries(result) == Power(m, n, 0);
    if power == 0 {
      outcome := Cpu.Copy(result, out);
      return;
    }
    var base := new int[n, n];
    outcome := Cpu.Copy(mat, base);
    IdentityLeft(m, n, n);
    assert Cpu.Entries(base) == Power(m, n, 1);
    var scratch := new int[n, n];
    SquareAndMultiply(m, n, result, base, scratch, power);
    outcome := Cpu.Copy(result, out);
  }

  /** The loop of `matrix_power_into`, from `result = I` and `base = m`:
      `result` ends as `m^power`. */
  method SquareAndMultiply(ghost m: Grid, n: nat, result: array2<int>, base: array2<int>, scratch: array2<int>,
                           power: nat)
    requires IsMatrix(m, n, n)
    requires result != base && scratch != result && scratch != base
    requires result.Length0 == result.Length1 == base.Length0 == base.Length1 == scratch.Length0 == scratch.Length1 == n
    requires Cpu.Entries(result) == Power(m, n, 0) && Cpu.Entries(base) == Power(m, n, 1)
    modifies result, base, scratch
    ensures Cpu.Entries(result) == Power(m, n, power)
  {
    var exponent := power;
    ghost var rp, bp := 0, 1;
    while exponent > 0
      invariant Cpu.Entries(result) == Power(m, n, rp)
      invariant Cpu.Entries(base) == Power(m, n, bp)
      invariant rp + bp * exponent == power
    {
      exponent, rp, bp := PowerRound(m, n, result, base, scratch, exponent, rp, bp);
    }
  }

  /** One pass of the square-and-multiply loop: an odd exponent multiplies the
      base into the result, the exponent halves, and while it is non-zero the
      base is squared.  `rp + bp * exponent` is kept. */
  method PowerRound(ghost m: Grid, n: nat, result: array2<int>, base: array2<int>, scratch: array2<int>,
                    exponent: nat, ghost rp: nat, ghost bp: nat)
    returns (exponent': nat, ghost rp': nat, ghost bp': nat)
    requires IsMatrix(m, n, n) && exponent > 0
    requires result != base && scratch != result && scratch != base
    requires result.Length0 == result.Length1 == base.Length0 == base.Length1 == scratch.Length0 == scratch.Length1 == n
    requires Cpu.Entries(result) == Power(m, n, rp) && Cpu.Entries(base) == Power(m, n, bp)
    modifies result, base, scratch
    ensures exponent' == exponent / 2
    ensures Cpu.Entries(result) == Power(m, n, rp') && Cpu.Entries(base) == Power(m, n, bp')
    ensures rp' + bp' * exponent' == rp + bp * exponent
  {
    SquareMultiplyStep(rp, bp, exponent);
    rp', bp' := rp, bp;
    if exponent % 2 == 1 {
      MultiplyPowers(m, n, result, base, scratch, rp, bp);
      rp' := rp + bp;
    }
    exponent' := exponent / 2;
    if exponent' != 0 {
      MultiplyPowers(m, n, base, base, scratch, bp, bp);
      bp' := bp + bp;
    }
  }

  /** One `multiply_into` then `copy` of the power loop: `target = m^p` times
      `factor = m^q` through `scratch` leaves `target = m^(p+q)`.  `factor` may
      be `target` itself, as when the base is squared. */
  method MultiplyPowers(ghost m: Grid, n: nat, target: array2<int>, factor: array2<int>, scratch: array2<int>,
                        ghost p: nat, ghost q: nat)
    requires IsMatrix(m, n, n)
    requires scratch != target && scratch != factor
    requires target.Length0 == target.Length1 == factor.Length0 == factor.Length1 == scratch.Length0 == scratch.Length1 == n
    requires Cpu.Entries(target) == Power(m, n, p) && Cpu.Entries(factor) == Power(m, n, q)
    modifies target, scratch
    ensures Cpu.Entries(target) == Power(m, n, p + q)
  {
    var outcome := Cpu.Multiply(target, factor, scratch);
    PowerAdd(m, n, p, q);
    outcome := Cpu.Copy(scratch, target);
  }

  /** `matrix_power`: a fresh matrix holding `mat^power`; only a non-square
      `mat` fails. */
  method MatrixPower(mat: array2<int>, power: nat) returns (r: Result<array2<int>>)
    ensures r.Err? <==> mat.Length0 != mat.Length1
    ensures r.Err? ==> r.error == InvalidArgument(Cpu.NotSquare)
    ensures r.Ok? ==> fresh(r.value) && r.value.Length0 == mat.Length0 == r.value.Length1
    ensures r.Ok? ==> Cpu.Entries(r.value) == Power(Cpu.Entries(mat), mat.Length0, power)
  {
    var result := new int[mat.Length0, mat.Length1];
    var outcome := MatrixPowerInto(mat, power, result);
    if outcome.Fail? {
      return Err(outcome.error);
    }
    r := Ok(result);
  }

  /** The argument checks of `solve_linear_system`: `A` square, then as many
      rows in `B` as in `A`. */
  function SolveArgsCheck(aRows: nat, aCols: nat, bRows: nat): (r: Outcome)
    ensures r.Pass? <==> aRows == aCols == bRows
    ensures aRows != aCols ==> r == Fail(InvalidArgument(Cpu.NotSquare))
    ensures aRows == aCols != bRows ==> r == Fail(InvalidArgument(RowCountMismatch))
  {
    var square := Cpu.RequireSquare(aRows, aCols);
    if square.Fail? then square
    else if aRows != bRows then Fail(InvalidArgument(RowCountMismatch))
    else Pass
  }

  /** The part of `solve_linear_system` before the elimination: the argument
      checks, then working clones of `A` and `B` for the back end to overwrite.
      With no `modifies` clause the caller's `A` and `B` stay as they were. */
  method SolveWorkingCopies(a: array2<int>, b: array2<int>) returns (r: Result<(array2<int>, array2<int>)>)
    ensures r.Err? <==> SolveArgsCheck(a.Length0, a.Length1, b.Length0).Fail?
    ensures r.Err? ==> r.error == SolveArgsCheck(a.Length0, a.Length1, b.Length0).error
    ensures r.Ok? ==> fresh(r.value.0) && fresh(r.value.1) && r.value.0 != r.value.1
    ensures r.Ok? ==> Cpu.Entries(r.value.0) == Cpu.Entries(a) && Cpu.Entries(r.value.1) == Cpu.Entries(b)
    ensures r.Ok? ==> Cpu.SolveCheck(r.value.0.Length0, r.value.0.Length1, r.value.1.Length0).Pass?
  {
    var check := SolveArgsCheck(a.Length0, a.Length1, b.Length0);
    if check.Fail? {
      return Err(check.error);
    }
    var aWork := new int[a.Length0, a.Length1];
    var outcome := Cpu.Copy(a, aWork);
    var bWork := new int[b.Length0, b.Length1];
    outcome := Cpu.Copy(b, bWork);
    r := Ok((aWork, bWork));
  }
}
