/** Level-1 in-place unary operations (src/level1/apply_unary.hpp).

    This header carries its own copy of the plan builders: it flips a negative
    stride into the offset before it looks at the extent (in the multi-operand
    builder too), sorts with `std::sort`, and merges adjacent loops with an
    explicit loop into the last merged entry.  `apply_unary_inplace` builds the
    plan of a view and runs the `UnrollHelper` loop nest over it; that loop nest is
    `IterationPlan.Run`.  The view's elements are the operand-0 offsets of its own
    loop nest started from `origin`, the index of the view's data handle. */
module ApplyUnary {
  import opened Wrappers
  import opened Strides
  import opened LoopNests
  import opened IterationPlan

  // ---------------------------------------------------------------------------
  // Merging loops

  /** `multi_extent_stride::can_merge_with_inner`: the loop over the operands with
      an early `return false`. */
  method CanMergeJoint(outer: ExtentStrides, inner: ExtentStrides) returns (b: bool)
    requires |outer.strides| == |inner.strides|
    ensures b <==> Strides.CanMergeWithInner(outer, inner)
  {
    var i := 0;
    while i < |outer.strides|
      invariant 0 <= i <= |outer.strides|
      invariant forall k :: 0 <= k < i ==> outer.strides[k] == inner.strides[k] * inner.extent
    {
      if outer.strides[i] != inner.strides[i] * inner.extent {
        return false;
      }
      i := i + 1;
    }
    return true;
  }

  lemma AsPlanSplit(p: seq<ExtentStride>, x: ExtentStride)
    ensures AsPlan(p + [x]) == AsPlan(p) + [AsStrides(x)]
    ensures p != [] ==> AsPlan(p[..|p| - 1]) == AsPlan(p)[..|p| - 1]
  {
  }

  /** One step of the greedy merge: the next loop is merged into the last merged
      entry when it is contiguous with it, and appended otherwise. */
  lemma CoalesceFromStep(done: seq<ExtentStrides>, rest: seq<ExtentStrides>)
    requires done != [] && rest != []
    ensures CoalesceFrom(done, rest) ==
      if Strides.CanMergeWithInner(done[|done| - 1], rest[0])
      then CoalesceFrom(done[..|done| - 1] + [Strides.MergeWithInner(done[|done| - 1], rest[0])], rest[1..])
      else CoalesceFrom(done + [rest[0]], rest[1..])
  {
  }

  /** The first step of the greedy merge, into an empty list. */
  lemma CoalesceFirst(s: seq<ExtentStrides>)
    requires s != []
    ensures Coalesce(s) == CoalesceFrom([s[0]], s[1..])
  {
  }

  /** The greedy merge loop of the single-operand builder: each loop is merged
      into the last merged entry when it is contiguous with it, or appended.  The
      result is `merge_strides_right`'s coalescing, so it visits what the input
      plan visits (`CoalesceVisits`). */
  method MergeAdjacent(plan: seq<ExtentStride>) returns (merged: seq<ExtentStride>)
    ensures AsPlan(merged) == Coalesce(AsPlan(plan))
  {
    var s := AsPlan(plan);
    merged := [];
    var k := 0;
    while k < |plan|
      invariant 0 <= k <= |plan|
      invariant k == 0 <==> merged == []
      invariant k > 0 ==> CoalesceFrom(AsPlan(merged), s[k..]) == Coalesce(s)
    {
      var dim := plan[k];
      assert s[k..][0] == AsStrides(dim) && s[k..][1..] == s[k + 1..];
      if merged == [] {
        CoalesceFirst(s);
        merged := [dim];
        assert AsPlan(merged) == [s[0]];
      } else {
        ghost var done := AsPlan(merged);
        var last := merged[|merged| - 1];
        assert done[|done| - 1] == AsStrides(last);
        CoalesceFromStep(done, s[k..]);
        ExtentStrideAgrees(last, dim, [], []);
        if last.CanMergeWithInner(dim) {
          AsPlanSplit(merged, last);
          AsPlanSplit(merged[..|merged| - 1], last.MergeWithInner(dim));
          merged := merged[..|merged| - 1] + [last.MergeWithInner(dim)];
          assert AsPlan(merged) == done[..|done| - 1] + [Strides.MergeWithInner(AsStrides(last), AsStrides(dim))];
        } else {
          AsPlanSplit(merged, dim);
          merged := merged + [dim];
        }
      }
      k := k + 1;
    }
    if plan != [] {
      assert s[k..] == [];
    }
  }

  /** The greedy merge loop of the multi-operand builder, over joint loops. */
  method MergeAdjacentJoint(plan: seq<ExtentStrides>, n: nat) returns (merged: seq<ExtentStrides>)
    requires Arity(plan, n)
    ensures merged == Coalesce(plan)
  {
    merged := [];
    var k := 0;
    while k < |plan|
      invariant 0 <= k <= |plan| && Arity(merged, n)
      invariant k == 0 <==> merged == []
      invariant k > 0 ==> CoalesceFrom(merged, plan[k..]) == Coalesce(plan)
    {
      var dim := plan[k];
      assert plan[k..][0] == dim && plan[k..][1..] == plan[k + 1..];
      if merged == [] {
        CoalesceFirst(plan);
        merged := [dim];
      } else {
        CoalesceFromStep(merged, plan[k..]);
        var can := CanMergeJoint(merged[|merged| - 1], dim);
        if can {
          merged := merged[..|merged| - 1] + [Strides.MergeWithInner(merged[|merged| - 1], dim)];
        } else {
          merged := merged + [dim];
        }
      }
      k := k + 1;
    }
    if plan != [] {
      assert plan[k..] == [];
    }
  }

  /** `std::sort` by stride, largest first, then the greedy merge loop. */
  method SortAndMergeAdjacent(raw: seq<ExtentStrides>) returns (merged: seq<ExtentStride>)
    requires Arity(raw, 1)
    ensures AsPlan(merged) == Coalesce(SortDesc(raw))
  {
    SortDescArity(raw, 1);
    var plan := ToPlan(SortDesc(raw));
    merged := MergeAdjacent(plan);
  }

  /** `std::sort` by operand 0's stride, largest first, then the greedy merge
      loop over joint loops. */
  method SortAndMergeJoint(raw: seq<ExtentStrides>, n: nat) returns (merged: seq<ExtentStrides>)
    requires Arity(raw, n)
    ensures merged == Coalesce(SortDesc(raw))
  {
    SortDescArity(raw, n);
    merged := MergeAdjacentJoint(SortDesc(raw), n);
  }

  // ---------------------------------------------------------------------------
  // Plan builders

  /** `make_iteration_plan_with_offset` as written: a negative stride is flipped
      into the offset, a zero extent is skipped, the loops are sorted by stride,
      largest first, and merged.  A view with a zero extent among non-zero ones
      gets a non-empty plan, and a rank-0 view an empty one (see Findings). */
  method MakeIterationPlanWithOffsetAsWritten(m: Mapping) returns (merged: seq<ExtentStride>, offset: int)
    requires m.WellFormed()
    ensures AsPlan(merged) == Planned(NonZero(Dims(m)))
    ensures [offset] == FlipOffset(Dims(m), 1)
  {
    var raw;
    raw, offset := FlipThenSkipLoops(Dims(m));
    merged := SortAndMergeAdjacent(raw);
  }

  /** `make_iteration_plan_with_offset`, corrected: `None` for a view with a zero
      extent (it has no elements); otherwise the flipped, sorted and merged plan
      with the collected offset.  A rank-0 view gets the empty plan, which visits
      its one element. */
  method MakeIterationPlanWithOffset(m: Mapping) returns (r: Option<(seq<ExtentStride>, int)>)
    requires m.WellFormed()
    ensures r.None? <==> AnyZero(Dims(m))
    ensures r.Some? ==> AsPlan(r.value.0) == Planned(Dims(m)) && [r.value.1] == FlipOffset(Dims(m), 1)
  {
    var flipped := FlipLoops(Dims(m));
    if flipped.None? {
      return None;
    }
    var (raw, offset) := flipped.value;
    var merged := SortAndMergeAdjacent(raw);
    return Some((merged, offset));
  }

  /** `make_multi_iteration_plan_with_offset` as written: operand 0's sign decides
      the flip of every operand, and the flip happens before the zero-extent skip,
      so a skipped loop still moves the offsets. */
  method MakeMultiIterationPlanWithOffsetAsWritten(ms: seq<Mapping>) returns (merged: seq<ExtentStrides>, offsets: seq<int>)
    requires SameExtents(ms)
    ensures merged == Planned(NonZero(DimsMulti(ms)))
    ensures offsets == FlipOffset(DimsMulti(ms), |ms|)
  {
    var raw;
    raw, offsets := FlipThenSkipJoint(DimsMulti(ms), |ms|);
    merged := SortAndMergeJoint(raw, |ms|);
  }

  /** The dimension loop of the builder above: every joint loop is flipped on
      operand 0's sign, moving the offsets, and then kept only if non-empty. */
  method FlipThenSkipJoint(dims: seq<ExtentStrides>, n: nat) returns (raw: seq<ExtentStrides>, offsets: seq<int>)
    requires n >= 1 && Arity(dims, n)
    ensures raw == FlipAll(NonZero(dims)) && Arity(raw, n) && offsets == FlipOffset(dims, n)
  {
    raw := [];
    offsets := Zeros(n);
    var i := 0;
    while i < |dims|
      invariant 0 <= i <= |dims|
      invariant raw == FlipAll(NonZero(dims[..i])) && Arity(raw, n)
      invariant offsets == FlipOffset(dims[..i], n)
    {
      var extent := dims[i].extent;
      var strides := dims[i].strides;
      var strides', offsets' := FlipJoint(extent, strides, offsets);
      FlipThenSkipStep(dims, i, n, raw, offsets, strides', offsets');
      offsets := offsets';
      if extent != 0 {
        raw := raw + [ExtentStrides(extent, strides')];
      }
      i := i + 1;
    }
    assert dims[..|dims|] == dims;
  }

  /** `make_multi_iteration_plan_with_offset`, corrected: `None` when the common
      extents include a zero; otherwise the joint plan and one offset per operand. */
  method MakeMultiIterationPlanWithOffset(ms: seq<Mapping>) returns (r: Option<(seq<ExtentStrides>, seq<int>)>)
    requires SameExtents(ms)
    ensures r.None? <==> AnyZero(DimsMulti(ms))
    ensures r.Some? ==> r.value.0 == Planned(DimsMulti(ms)) && r.value.1 == FlipOffset(DimsMulti(ms), |ms|)
  {
    var flipped := FlipJointLoops(DimsMulti(ms), |ms|);
    if flipped.None? {
      return None;
    }
    var (raw, offsets) := flipped.value;
    var merged := SortAndMergeJoint(raw, |ms|);
    return Some((merged, offsets));
  }

  // ---------------------------------------------------------------------------
  // Applying an operation in place

  /** The buffer indices of a view's elements, in the view's own index order. */
  function ViewPositions(m: Mapping, origin: int): (ps: seq<int>)
    requires m.WellFormed()
    ensures |ps| == Product(Dims(m))
  {
    VisitsLength(Dims(m), [origin]);
    Positions(Visits(Dims(m), [origin]))
  }

  /** The plan of `extent_stride` whose loop nest is `p`. */
  function FromStrides(p: seq<ExtentStrides>): (plan: seq<ExtentStride>)
    requires Arity(p, 1)
    ensures AsPlan(plan) == p
  {
    var plan := seq(|p|, k requires 0 <= k < |p| => ExtentStride(p[k].extent, p[k].strides[0]));
    assert forall k :: 0 <= k < |p| ==> p[k] == AsStrides(plan[k]);
    plan
  }

  lemma AsPlanInjective(x: seq<ExtentStride>, y: seq<ExtentStride>)
    requires AsPlan(x) == AsPlan(y)
    ensures x == y
  {
    assert forall k :: 0 <= k < |x| ==> AsStrides(x[k]) == AsPlan(x)[k];
  }

  lemma {:induction false} NonZeroArity(p: seq<ExtentStrides>, n: nat)
    requires Arity(p, n)
    ensures Arity(NonZero(p), n)
  {
    if p != [] {
      NonZeroArity(p[..|p| - 1], n);
    }
  }

  /** The indices `apply_unary_inplace` as written visits: nothing when the plan
      is empty, otherwise the plan's offsets from the shifted origin. */
  function AsWrittenPositions(m: Mapping, origin: int): seq<int>
    requires m.WellFormed()
  {
    var p := Planned(NonZero(Dims(m)));
    NonZeroArity(Dims(m), 1);
    PlannedShape(NonZero(Dims(m)), 1);
    if p == [] then [] else Offsets(FromStrides(p), origin + FlipOffset(Dims(m), 1)[0])
  }

  /** `apply_unary_inplace` as written: an empty plan returns at once, otherwise
      the `UnrollHelper` loop nest runs from the shifted origin. */
  method ApplyUnaryInplaceAsWritten<T>(a: array<T>, m: Mapping, origin: int, op: T -> T)
    requires m.WellFormed() && InBounds(AsWrittenPositions(m, origin), a.Length)
    modifies a
    ensures a[..] == ApplyAll(old(a[..]), AsWrittenPositions(m, origin), op)
  {
    var plan, offset := MakeIterationPlanWithOffsetAsWritten(m);
    NonZeroArity(Dims(m), 1);
    PlannedShape(NonZero(Dims(m)), 1);
    AsPlanInjective(plan, FromStrides(Planned(NonZero(Dims(m)))));
    if plan == [] {
      return;
    }
    Run(a, plan, origin + offset, op);
  }

  /** Equal multisets of visits have equal multisets of operand-0 offsets. */
  lemma {:induction false} PositionsMultiset(vs: seq<seq<int>>, ws: seq<seq<int>>)
    requires multiset(vs) == multiset(ws)
    ensures multiset(Positions(vs)) == multiset(Positions(ws))
    decreases |vs|
  {
    if vs != [] {
      var x := vs[0];
      assert x in multiset(ws);
      var k :| 0 <= k < |ws| && ws[k] == x;
      var rest := ws[..k] + ws[k + 1..];
      assert ws == ws[..k] + [x] + ws[k + 1..];
      assert vs == [x] + vs[1..];
      assert multiset(ws) == multiset(rest) + multiset{x};
      assert multiset(vs) == multiset{x} + multiset(vs[1..]);
      assert multiset(vs[1..]) == multiset(vs) - multiset{x};
      assert multiset(rest) == multiset(ws) - multiset{x};
      PositionsMultiset(vs[1..], rest);
      PositionsAppend([x], vs[1..]);
      PositionsAppend(ws[..k] + [x], ws[k + 1..]);
      PositionsAppend(ws[..k], [x]);
      PositionsAppend(ws[..k], ws[k + 1..]);
    } else {
      assert |ws| == |multiset(ws)| == 0;
    }
  }

  /** The corrected plan's offsets are the view's elements, in some order. */
  lemma PlanPositions(m: Mapping, origin: int, plan: seq<ExtentStride>, offset: int)
    requires m.WellFormed()
    requires AsPlan(plan) == Planned(Dims(m)) && [offset] == FlipOffset(Dims(m), 1)
    ensures multiset(Offsets(plan, origin + offset)) == multiset(ViewPositions(m, origin))
  {
    assert Add([origin], FlipOffset(Dims(m), 1)) == [origin + offset];
    PlannedVisits(Dims(m), [origin]);
    OffsetsVisits(plan, origin + offset);
    PositionsMultiset(Visits(Planned(Dims(m)), [origin + offset]), Visits(Dims(m), [origin]));
  }

  /** `apply_unary_inplace`, corrected: a view with a zero extent is left alone,
      a rank-0 view has `op` applied to its one element, and any other view runs
      the plan.  Every element of the view gets `op` as often as the view maps an
      index to it; in a view that maps each index to its own element, each
      element gets `op` exactly once and nothing else changes. */
  method ApplyUnaryInplace<T>(a: array<T>, m: Mapping, origin: int, op: T -> T)
    requires m.WellFormed() && InBounds(ViewPositions(m, origin), a.Length)
    modifies a
    ensures a[..] == ApplyAll(old(a[..]), ViewPositions(m, origin), op)
    ensures Unique(ViewPositions(m, origin)) ==>
      forall j :: 0 <= j < a.Length ==> a[j] == if j in ViewPositions(m, origin) then op(old(a[j])) else old(a[j])
  {
    ghost var ps := ViewPositions(m, origin);
    ghost var a0 := a[..];
    if Unique(ps) {
      ApplyAllOnce(a0, ps, op);
    }
    var r := MakeIterationPlanWithOffset(m);
    if r.None? {
      var k :| 0 <= k < |Dims(m)| && Dims(m)[k].extent == 0;
      VisitsOfZeroExtent(Dims(m), [origin], k);
      return;
    }
    RunPlan(a, m, origin, r.value.0, r.value.1, op);
  }

  /** The corrected plan of a non-empty view, run from the shifted origin: the
      empty plan of a rank-0 view applies `op` once at that offset, any other plan
      runs the `UnrollHelper` loop nest. */
  method RunPlan<T>(a: array<T>, m: Mapping, origin: int, plan: seq<ExtentStride>, offset: int, op: T -> T)
    requires m.WellFormed() && InBounds(ViewPositions(m, origin), a.Length)
    requires AsPlan(plan) == Planned(Dims(m)) && [offset] == FlipOffset(Dims(m), 1)
    modifies a
    ensures a[..] == ApplyAll(old(a[..]), ViewPositions(m, origin), op)
  {
    ghost var a0 := a[..];
    PlanPositions(m, origin, plan, offset);
    ApplyAllPermutation(a0, ViewPositions(m, origin), Offsets(plan, origin + offset), op);
    if plan == [] {
      assert Offsets(plan, origin + offset) == [origin + offset];
      ApplyAllStep(a0, [], [origin + offset], op);
      a[origin + offset] := op(a[origin + offset]);
      return;
    }
    Run(a, plan, origin + offset, op);
  }

  // ---------------------------------------------------------------------------
  // What the builders as written get wrong

  /** A view with extents {0, 5} and strides {5, 1} has no elements, yet
      `apply_unary_inplace` as written applies `op` at five indices. */
  lemma ZeroExtentAppliesAsWritten()
    ensures ViewPositions(Mapping([0, 5], [5, 1]), 0) == []
    ensures AsWrittenPositions(Mapping([0, 5], [5, 1]), 0) == [0, 1, 2, 3, 4]
  {
    var m := Mapping([0, 5], [5, 1]);
    ZeroExtentPlanAsWritten();
    var plan := [ExtentStride(5, 1)];
    assert FromStrides([ExtentStrides(5, [1])]) == plan;
    var d := Dims(m);
    assert d == [ExtentStrides(0, [5]), ExtentStrides(5, [1])];
    FlipOffsetTwo(d[0], d[1], 1);
    FlipOffsetStep([d[0]], d[1], 1);
    assert FlipOffset(d, 1) == [0];
    OffsetsFive();
  }

  lemma OffsetsFive()
    ensures Offsets([ExtentStride(5, 1)], 0) == [0, 1, 2, 3, 4]
  {
    var plan := [ExtentStride(5, 1)];
    assert plan[1..] == [];
    assert OffsetsUpTo(plan, 0, 1) == [0];
    assert OffsetsUpTo(plan, 0, 2) == [0, 1];
    assert OffsetsUpTo(plan, 0, 3) == [0, 1, 2];
    assert OffsetsUpTo(plan, 0, 4) == [0, 1, 2, 3];
  }

  /** A rank-0 view has one element, at its origin, yet the plan as written is
      empty and `apply_unary_inplace` returns without touching it. */
  lemma RankZeroSkippedAsWritten(origin: int)
    ensures ViewPositions(Mapping([], []), origin) == [origin]
    ensures AsWrittenPositions(Mapping([], []), origin) == []
  {
    var m := Mapping([], []);
    assert Dims(m) == [];
    assert Visits([], [origin]) == [[origin]];
    assert NonZero([]) == [];
    assert Planned([]) == [];
  }
}
