/** Iteration plans over strided views (src/mdspan/iteration_plan.hpp).

    A view is described by a `Mapping` (extents and strides).  Its elements are
    enumerated by the loop nest `Dims(m)`, one loop per dimension in the order of
    the dimensions, starting from offset 0.  A plan builder flips negative strides
    into a base offset, drops or rejects zero extents, sorts the loops by stride
    (largest outermost) and merges contiguous loops.  `Run` is the recursive loop
    nest of `UnrollHelper` that applies an operation at every offset of a plan. */
module IterationPlan {
  import opened Wrappers
  import opened Concats
  import opened Strides
  import opened LoopNests

  /** `extent_stride`: one loop of a single-operand plan. */
  datatype ExtentStride = ExtentStride(extent: nat, stride: int)
  {
    /** `can_merge_with_inner`. */
    predicate CanMergeWithInner(inner: ExtentStride)
    {
      stride == inner.stride * inner.extent
    }

    /** `merge_with_inner`. */
    function MergeWithInner(inner: ExtentStride): ExtentStride
    {
      ExtentStride(extent * inner.extent, inner.stride)
    }
  }

  /** The same loop as an `extent_strides<1>`. */
  function AsStrides(e: ExtentStride): ExtentStrides
  {
    ExtentStrides(e.extent, [e.stride])
  }

  function AsPlan(p: seq<ExtentStride>): (r: seq<ExtentStrides>)
    ensures |r| == |p| && Arity(r, 1)
  {
    seq(|p|, k requires 0 <= k < |p| => AsStrides(p[k]))
  }

  /** `extent_stride` merges exactly when the one-operand `extent_strides<1>` does,
      and into the same loop; so a merged pair of loops visits what the pair did. */
  lemma ExtentStrideAgrees(outer: ExtentStride, inner: ExtentStride, rest: seq<ExtentStrides>, b: seq<int>)
    ensures outer.CanMergeWithInner(inner) <==> Strides.CanMergeWithInner(AsStrides(outer), AsStrides(inner))
    ensures AsStrides(outer.MergeWithInner(inner)) == Strides.MergeWithInner(AsStrides(outer), AsStrides(inner))
    ensures outer.CanMergeWithInner(inner) ==>
      Visits([AsStrides(outer), AsStrides(inner)] + rest, b) == Visits([AsStrides(outer.MergeWithInner(inner))] + rest, b)
  {
    var o, i := AsStrides(outer), AsStrides(inner);
    assert Strides.CanMergeWithInner(o, i) ==> o.strides[0] == i.strides[0] * i.extent;
    if outer.CanMergeWithInner(inner) {
      MergeVisits(AsStrides(outer), AsStrides(inner), rest, b);
    }
  }

  // ---------------------------------------------------------------------------
  // The views and what a plan must visit

  /** The loop nest of a view: one loop per dimension, in dimension order. */
  function Dims(m: Mapping): (d: seq<ExtentStrides>)
    requires m.WellFormed()
    ensures |d| == m.Rank() && Arity(d, 1)
  {
    seq(m.Rank(), i requires 0 <= i < m.Rank() => ExtentStrides(m.extents[i], [m.strides[i]]))
  }

  /** All mappings have the rank and the extents of the first one. */
  predicate SameExtents(ms: seq<Mapping>)
  {
    |ms| >= 1 && (forall k :: 0 <= k < |ms| ==> ms[k].WellFormed()) &&
    forall k :: 0 <= k < |ms| ==> ms[k].extents == ms[0].extents
  }

  /** The joint loop nest of several views with the same extents: per dimension,
      the common extent and one stride per view. */
  function DimsMulti(ms: seq<Mapping>): (d: seq<ExtentStrides>)
    requires SameExtents(ms)
    ensures |d| == ms[0].Rank() && Arity(d, |ms|)
  {
    seq(ms[0].Rank(), i requires 0 <= i < ms[0].Rank() =>
      ExtentStrides(ms[0].extents[i], seq(|ms|, k requires 0 <= k < |ms| => ms[k].strides[i])))
  }

  predicate AnyZero(p: seq<ExtentStrides>)
  {
    exists k :: 0 <= k < |p| && p[k].extent == 0
  }

  /** The loops with a non-zero extent, in order. */
  function NonZero(p: seq<ExtentStrides>): (r: seq<ExtentStrides>)
    ensures |r| <= |p|
  {
    if p == [] then []
    else NonZero(p[..|p| - 1]) + (if p[|p| - 1].extent != 0 then [p[|p| - 1]] else [])
  }

  lemma {:induction false} NonZeroNoZero(p: seq<ExtentStrides>)
    requires !AnyZero(p)
    ensures NonZero(p) == p
  {
    if p != [] {
      NonZeroNoZero(p[..|p| - 1]);
    }
  }

  /** The plan a builder derives from a loop nest: flipped, sorted, merged. */
  function Planned(p: seq<ExtentStrides>): seq<ExtentStrides>
  {
    Coalesce(SortDesc(FlipAll(p)))
  }

  /** The planned loop nest, started from the collected offset correction, visits
      the same offsets as the original loop nest, the same number of times. */
  lemma PlannedVisits(p: seq<ExtentStrides>, b: seq<int>)
    ensures multiset(Visits(Planned(p), Add(b, FlipOffset(p, |b|)))) == multiset(Visits(p, b))
  {
    var d := Add(b, FlipOffset(p, |b|));
    FlipAllVisits(p, b);
    SortVisits(FlipAll(p), d);
    CoalesceVisits(SortDesc(FlipAll(p)), d);
  }

  /** All operand-0 strides are non-negative. */
  predicate Forward(p: seq<ExtentStrides>)
  {
    forall k :: 0 <= k < |p| ==> |p[k].strides| > 0 && p[k].strides[0] >= 0
  }

  lemma {:induction false} CoalesceFromForward(done: seq<ExtentStrides>, rest: seq<ExtentStrides>)
    requires done != [] && Forward(done) && Forward(rest)
    ensures Forward(CoalesceFrom(done, rest))
    decreases |rest|
  {
    if rest != [] {
      var last := done[|done| - 1];
      if Strides.CanMergeWithInner(last, rest[0]) {
        CoalesceFromForward(done[..|done| - 1] + [Strides.MergeWithInner(last, rest[0])], rest[1..]);
      } else {
        CoalesceFromForward(done + [rest[0]], rest[1..]);
      }
    }
  }

  /** A plan has no more loops than the view has dimensions, one stride per
      operand, operand 0 always moving forward, and one loop iteration per element
      of the view. */
  lemma PlannedShape(p: seq<ExtentStrides>, n: nat)
    requires Arity(p, n) && n >= 1
    ensures |Planned(p)| <= |p| && Arity(Planned(p), n)
    ensures Forward(Planned(p))
    ensures Product(Planned(p)) == Product(p)
  {
    var s := SortDesc(FlipAll(p));
    SortedFlipShape(p, n);
    CoalesceShape(s);
    CoalesceArity(s, n);
    if s != [] {
      CoalesceFromForward([s[0]], s[1..]);
    }
  }

  /** Flipping and sorting keep the loops, their arity and their product, and
      leave every operand-0 stride non-negative. */
  lemma SortedFlipShape(p: seq<ExtentStrides>, n: nat)
    requires Arity(p, n) && n >= 1
    ensures var s := SortDesc(FlipAll(p));
      |s| == |p| && Arity(s, n) && Forward(s) && Product(s) == Product(p)
  {
    var f := FlipAll(p);
    assert Arity(f, n);
    assert Forward(f);
    SortDescCorrect(f);
    SortDescArity(f, n);
    var s := SortDesc(f);
    forall k | 0 <= k < |s| ensures |s[k].strides| > 0 && s[k].strides[0] >= 0 {
      assert s[k] in multiset(f);
    }
    PermutationProduct(s, f);
    FlipAllProduct(p);
  }

  lemma {:induction false} FlipAllProduct(p: seq<ExtentStrides>)
    ensures Product(FlipAll(p)) == Product(p)
  {
    if p != [] {
      FlipAllProduct(p[1..]);
      assert FlipAll(p)[1..] == FlipAll(p[1..]);
    }
  }

  /** One more loop of a builder: the loop-invariant functions on `p + [x]`. */
  lemma NonZeroStep(p: seq<ExtentStrides>, x: ExtentStrides)
    ensures NonZero(p + [x]) == NonZero(p) + (if x.extent != 0 then [x] else [])
  {
    assert (p + [x])[..|p|] == p;
  }

  /** The non-empty loops among the first `i + 1` of `dims`. */
  lemma NonZeroAt(dims: seq<ExtentStrides>, i: nat)
    requires i < |dims|
    ensures dims[i].extent == 0 ==> NonZero(dims[..i + 1]) == NonZero(dims[..i])
    ensures dims[i].extent != 0 ==> NonZero(dims[..i + 1]) == NonZero(dims[..i]) + [dims[i]]
  {
    assert dims[..i + 1] == dims[..i] + [dims[i]];
    NonZeroStep(dims[..i], dims[i]);
  }

  /** One kept joint loop of a builder that skips zero extents: the flipped loops,
      their arity and the offsets extend to `kept + [x]`. */
  lemma KeptFlipStep(kept: seq<ExtentStrides>, x: ExtentStrides, n: nat, raw: seq<ExtentStrides>,
                     offsets: seq<int>, strides': seq<int>, offsets': seq<int>)
    requires raw == FlipAll(kept) && Arity(raw, n) && offsets == FlipOffset(kept, n) && |strides'| == n
    requires [ExtentStrides(x.extent, strides')] == FlipAll([ExtentStrides(x.extent, x.strides)])
    requires offsets' == if Flips(ExtentStrides(x.extent, x.strides)) then Shift(offsets, x.strides, x.extent - 1) else offsets
    ensures raw + [ExtentStrides(x.extent, strides')] == FlipAll(kept + [x])
    ensures Arity(raw + [ExtentStrides(x.extent, strides')], n)
    ensures offsets' == FlipOffset(kept + [x], n)
  {
    assert ExtentStrides(x.extent, x.strides) == x;
    MultiFlipStep(kept, x, n, offsets, strides', offsets');
    ArityAppend(raw, ExtentStrides(x.extent, strides'), n);
  }

  /** `KeptFlipStep` for a non-zero dimension `i` of `dims`: it joins the kept loops. */
  lemma KeptJointStep(dims: seq<ExtentStrides>, i: nat, n: nat, kept: seq<ExtentStrides>, raw: seq<ExtentStrides>,
                      offsets: seq<int>, strides': seq<int>, offsets': seq<int>)
    requires i < |dims| && dims[i].extent != 0 && kept == NonZero(dims[..i])
    requires raw == FlipAll(kept) && Arity(raw, n) && offsets == FlipOffset(kept, n) && |strides'| == n
    requires [ExtentStrides(dims[i].extent, strides')] == FlipAll([ExtentStrides(dims[i].extent, dims[i].strides)])
    requires offsets' == if Flips(ExtentStrides(dims[i].extent, dims[i].strides))
                         then Shift(offsets, dims[i].strides, dims[i].extent - 1) else offsets
    ensures kept + [dims[i]] == NonZero(dims[..i + 1])
    ensures raw + [ExtentStrides(dims[i].extent, strides')] == FlipAll(kept + [dims[i]])
    ensures Arity(raw + [ExtentStrides(dims[i].extent, strides')], n)
    ensures offsets' == FlipOffset(kept + [dims[i]], n)
  {
    NonZeroAt(dims, i);
    KeptFlipStep(kept, dims[i], n, raw, offsets, strides', offsets');
  }

  lemma FlipOffsetStep(p: seq<ExtentStrides>, x: ExtentStrides, n: nat)
    ensures FlipOffset(p + [x], n) == if Flips(x) then Shift(FlipOffset(p, n), x.strides, x.extent - 1) else FlipOffset(p, n)
  {
    assert (p + [x])[..|p|] == p;
  }

  lemma ArityAppend(p: seq<ExtentStrides>, x: ExtentStrides, n: nat)
    requires Arity(p, n) && |x.strides| == n
    ensures Arity(p + [x], n)
  {
  }

  lemma FlipAllStep(p: seq<ExtentStrides>, x: ExtentStrides)
    ensures FlipAll(p + [x]) == FlipAll(p) + FlipAll([x])
  {
  }

  /** One joint loop of a multi-operand builder: appending loop `x`, flipped by
      `FlipJoint`, keeps the flipped loops and the offsets those of `prev + [x]`. */
  lemma MultiFlipStep(prev: seq<ExtentStrides>, x: ExtentStrides, n: nat, offsets: seq<int>,
                      strides': seq<int>, offsets': seq<int>)
    requires offsets == FlipOffset(prev, n)
    requires [ExtentStrides(x.extent, strides')] == FlipAll([x])
    requires offsets' == if Flips(x) then Shift(offsets, x.strides, x.extent - 1) else offsets
    ensures offsets' == FlipOffset(prev + [x], n)
    ensures FlipAll(prev) + [ExtentStrides(x.extent, strides')] == FlipAll(prev + [x])
  {
    FlipOffsetStep(prev, x, n);
    FlipAllStep(prev, x);
  }

  /** One joint loop of a builder that keeps every loop: the flipped loops, their
      arity and the offsets extend from `dims[..i]` to `dims[..i + 1]`. */
  lemma JointFlipStep(dims: seq<ExtentStrides>, i: nat, n: nat, raw: seq<ExtentStrides>,
                      offsets: seq<int>, strides': seq<int>, offsets': seq<int>)
    requires i < |dims|
    requires raw == FlipAll(dims[..i]) && Arity(raw, n) && offsets == FlipOffset(dims[..i], n) && |strides'| == n
    requires [ExtentStrides(dims[i].extent, strides')] == FlipAll([ExtentStrides(dims[i].extent, dims[i].strides)])
    requires offsets' == if Flips(ExtentStrides(dims[i].extent, dims[i].strides))
                         then Shift(offsets, dims[i].strides, dims[i].extent - 1) else offsets
    ensures raw + [ExtentStrides(dims[i].extent, strides')] == FlipAll(dims[..i + 1])
    ensures Arity(raw + [ExtentStrides(dims[i].extent, strides')], n)
    ensures offsets' == FlipOffset(dims[..i + 1], n)
  {
    assert dims[..i + 1] == dims[..i] + [dims[i]];
    KeptFlipStep(dims[..i], dims[i], n, raw, offsets, strides', offsets');
  }

  /** One joint loop of a builder that flips before it skips: the offsets always
      extend to `dims[..i + 1]`, the flipped loops only for a non-zero extent. */
  lemma FlipThenSkipStep(dims: seq<ExtentStrides>, i: nat, n: nat, raw: seq<ExtentStrides>,
                         offsets: seq<int>, strides': seq<int>, offsets': seq<int>)
    requires i < |dims|
    requires raw == FlipAll(NonZero(dims[..i])) && Arity(raw, n) && offsets == FlipOffset(dims[..i], n) && |strides'| == n
    requires [ExtentStrides(dims[i].extent, strides')] == FlipAll([ExtentStrides(dims[i].extent, dims[i].strides)])
    requires offsets' == if Flips(ExtentStrides(dims[i].extent, dims[i].strides))
                         then Shift(offsets, dims[i].strides, dims[i].extent - 1) else offsets
    ensures offsets' == FlipOffset(dims[..i + 1], n)
    ensures dims[i].extent == 0 ==> raw == FlipAll(NonZero(dims[..i + 1]))
    ensures dims[i].extent != 0 ==> raw + [ExtentStrides(dims[i].extent, strides')] == FlipAll(NonZero(dims[..i + 1]))
    ensures dims[i].extent != 0 ==> Arity(raw + [ExtentStrides(dims[i].extent, strides')], n)
  {
    assert ExtentStrides(dims[i].extent, dims[i].strides) == dims[i];
    assert dims[..i + 1] == dims[..i] + [dims[i]];
    FlipOffsetStep(dims[..i], dims[i], n);
    NonZeroAt(dims, i);
    if dims[i].extent != 0 {
      FlipAllStep(NonZero(dims[..i]), dims[i]);
      ArityAppend(raw, ExtentStrides(dims[i].extent, strides'), n);
    }
  }

  /** One dimension of a builder that skips zero extents: the flipped non-empty
      loops grow by loop `i`, flipped, unless its extent is zero. */
  lemma NonZeroFlipStep(dims: seq<ExtentStrides>, i: nat)
    requires i < |dims|
    ensures FlipAll(NonZero(dims[..i + 1]))
            == FlipAll(NonZero(dims[..i])) + (if dims[i].extent != 0 then FlipAll([dims[i]]) else [])
  {
    assert dims[..i + 1] == dims[..i] + [dims[i]];
    NonZeroStep(dims[..i], dims[i]);
    FlipAllStep(NonZero(dims[..i]), dims[i]);
  }

  /** One dimension of a single-operand builder: flipping loop `i` of `dims`
      extends the flipped prefix by the flipped loop and moves the offset to the
      loop's last iteration. */
  lemma SingleFlipStep(dims: seq<ExtentStrides>, i: nat, offset: int, extent: nat, stride: int)
    requires i < |dims| && dims[i] == ExtentStrides(extent, [stride])
    requires [offset] == FlipOffset(dims[..i], 1)
    ensures dims[..i + 1] == dims[..i] + [dims[i]]
    ensures FlipAll([dims[i]]) == [ExtentStrides(extent, [if stride < 0 then -stride else stride])]
    ensures [if stride < 0 then offset + stride * (extent - 1) else offset] == FlipOffset(dims[..i + 1], 1)
  {
    assert dims[..i + 1] == dims[..i] + [dims[i]];
    FlipOffsetStep(dims[..i], dims[i], 1);
    if stride < 0 {
      assert Negate([stride]) == [-stride];
    }
  }

  /** One dimension of the single-operand builder as written: the flip moves the
      offset whatever the extent, and only a non-zero extent adds a loop. */
  lemma SkipAfterFlipStep(dims: seq<ExtentStrides>, i: nat, raw: seq<ExtentStrides>, offset: int, extent: nat, stride: int)
    requires i < |dims| && dims[i] == ExtentStrides(extent, [stride])
    requires raw == FlipAll(NonZero(dims[..i])) && Arity(raw, 1) && [offset] == FlipOffset(dims[..i], 1)
    ensures [if stride < 0 then offset + stride * (extent - 1) else offset] == FlipOffset(dims[..i + 1], 1)
    ensures extent == 0 ==> raw == FlipAll(NonZero(dims[..i + 1]))
    ensures extent != 0 ==> var x := ExtentStrides(extent, [if stride < 0 then -stride else stride]);
      raw + [x] == FlipAll(NonZero(dims[..i + 1])) && Arity(raw + [x], 1)
  {
    SingleFlipStep(dims, i, offset, extent, stride);
    NonZeroFlipStep(dims, i);
  }

  /** One dimension of a corrected single-operand builder, whose loops all have
      a non-zero extent: the flipped loops and the offset extend to `dims[..i + 1]`. */
  lemma KeepFlipStep(dims: seq<ExtentStrides>, i: nat, raw: seq<ExtentStrides>, offset: int, extent: nat, stride: int)
    requires i < |dims| && dims[i] == ExtentStrides(extent, [stride])
    requires raw == FlipAll(dims[..i]) && Arity(raw, 1) && [offset] == FlipOffset(dims[..i], 1)
    ensures [if stride < 0 then offset + stride * (extent - 1) else offset] == FlipOffset(dims[..i + 1], 1)
    ensures var x := ExtentStrides(extent, [if stride < 0 then -stride else stride]);
      raw + [x] == FlipAll(dims[..i + 1]) && Arity(raw + [x], 1)
  {
    SingleFlipStep(dims, i, offset, extent, stride);
    FlipAllStep(dims[..i], dims[i]);
  }

  // ---------------------------------------------------------------------------
  // Plan builders

  /** One plan loop per `extent_strides<1>` (the final copy loop of the builder). */
  method ToPlan(raw: seq<ExtentStrides>) returns (plan: seq<ExtentStride>)
    requires Arity(raw, 1)
    ensures AsPlan(plan) == raw
  {
    plan := [];
    var k := 0;
    while k < |raw|
      invariant 0 <= k <= |raw| && AsPlan(plan) == raw[..k]
    {
      plan := plan + [ExtentStride(raw[k].extent, raw[k].strides[0])];
      assert raw[k].strides == [raw[k].strides[0]];
      assert AsPlan(plan) == AsPlan(plan[..k]) + [AsStrides(plan[k])];
      k := k + 1;
    }
  }

  /** `std::sort` by operand-0 stride magnitude, `merge_strides_right`, and the
      copy into a plan of `extent_stride`. */
  method SortAndMerge(raw: seq<ExtentStrides>) returns (plan: seq<ExtentStride>)
    requires Arity(raw, 1)
    ensures AsPlan(plan) == Coalesce(SortDesc(raw))
  {
    SortDescArity(raw, 1);
    CoalesceArity(SortDesc(raw), 1);
    plan := ToPlan(Coalesce(SortDesc(raw)));
  }

  /** `make_iteration_plan_with_offset` as written: a negative stride is flipped
      into the offset, then a zero extent is skipped; the remaining loops are sorted
      and merged.  An empty view with some non-zero extent still yields a
      non-empty plan (see Findings). */
  method MakeIterationPlanWithOffsetAsWritten(m: Mapping) returns (plan: seq<ExtentStride>, offset: int)
    requires m.WellFormed()
    ensures AsPlan(plan) == Planned(NonZero(Dims(m)))
    ensures [offset] == FlipOffset(Dims(m), 1)
  {
    var raw;
    raw, offset := FlipThenSkipLoops(Dims(m));
    plan := [];
    if raw == [] {
      assert Planned(NonZero(Dims(m))) == [];
      return;
    }
    plan := SortAndMerge(raw);
  }

  /** The dimension loop of the single-operand builders as written: a negative
      stride is flipped into the offset, then a loop of extent 0 is skipped. */
  method FlipThenSkipLoops(dims: seq<ExtentStrides>) returns (raw: seq<ExtentStrides>, offset: int)
    requires Arity(dims, 1)
    ensures raw == FlipAll(NonZero(dims)) && Arity(raw, 1) && [offset] == FlipOffset(dims, 1)
  {
    raw := [];
    offset := 0;
    var i := 0;
    while i < |dims|
      invariant 0 <= i <= |dims|
      invariant raw == FlipAll(NonZero(dims[..i])) && Arity(raw, 1)
      invariant [offset] == FlipOffset(dims[..i], 1)
    {
      var extent: nat := dims[i].extent;
      var stride := dims[i].strides[0];
      assert dims[i] == ExtentStrides(extent, [stride]);
      SkipAfterFlipStep(dims, i, raw, offset, extent, stride);
      if stride < 0 {
        offset := offset + stride * (extent - 1);
        stride := -stride;
      }
      if extent != 0 {
        raw := raw + [ExtentStrides(extent, [stride])];
      }
      i := i + 1;
    }
    assert dims[..|dims|] == dims;
  }

  /** `make_iteration_plan_with_offset`, corrected: a view with a zero extent has
      no elements and gets no plan (`None`); otherwise the flipped, sorted and
      merged plan with the collected offset.  A rank-0 view gets `Some(([], 0))`,
      the empty plan that visits its base offset once. */
  method MakeIterationPlanWithOffset(m: Mapping) returns (r: Option<(seq<ExtentStride>, int)>)
    requires m.WellFormed()
    ensures r.None? <==> AnyZero(Dims(m))
    ensures r.Some? ==> AsPlan(r.value.0) == Planned(Dims(m)) && [r.value.1] == FlipOffset(Dims(m), 1)
  {
    var flipped := FlipLoops(Dims(m));
    if flipped.None? {
      return None;
    }
    var (raw, offset) := flipped.value;
    var plan := SortAndMerge(raw);
    return Some((plan, offset));
  }

  /** The dimension loop of the corrected single-operand builders: `None` at the
      first loop of extent 0, otherwise every negative stride flipped into the
      offset. */
  method FlipLoops(dims: seq<ExtentStrides>) returns (r: Option<(seq<ExtentStrides>, int)>)
    requires Arity(dims, 1)
    ensures r.None? <==> AnyZero(dims)
    ensures r.Some? ==> r.value.0 == FlipAll(dims) && Arity(r.value.0, 1) && [r.value.1] == FlipOffset(dims, 1)
  {
    var raw: seq<ExtentStrides> := [];
    var offset := 0;
    var i := 0;
    while i < |dims|
      invariant 0 <= i <= |dims| && forall k :: 0 <= k < i ==> dims[k].extent != 0
      invariant raw == FlipAll(dims[..i]) && Arity(raw, 1)
      invariant [offset] == FlipOffset(dims[..i], 1)
    {
      var extent: nat := dims[i].extent;
      var stride := dims[i].strides[0];
      if extent == 0 {
        return None;
      }
      assert dims[i] == ExtentStrides(extent, [stride]);
      KeepFlipStep(dims, i, raw, offset, extent, stride);
      if stride < 0 {
        offset := offset + stride * (extent - 1);
        stride := -stride;
      }
      raw := raw + [ExtentStrides(extent, [stride])];
      i := i + 1;
    }
    assert dims[..|dims|] == dims;
    return Some((raw, offset));
  }

  /** Flips one joint loop when operand 0's stride is negative (the `if` and its
      inner `for k` loop): every operand's offset moves to the loop's last
      iteration and every stride changes sign. */
  method FlipJoint(extent: nat, strides: seq<int>, offsets: seq<int>) returns (strides': seq<int>, offsets': seq<int>)
    requires |strides| == |offsets| >= 1
    ensures |strides'| == |strides| && |offsets'| == |offsets|
    ensures [ExtentStrides(extent, strides')] == FlipAll([ExtentStrides(extent, strides)])
    ensures offsets' == if Flips(ExtentStrides(extent, strides)) then Shift(offsets, strides, extent - 1) else offsets
  {
    strides', offsets' := strides, offsets;
    if strides[0] < 0 {
      var k := 0;
      while k < |strides|
        invariant 0 <= k <= |strides| && |strides'| == |strides| && |offsets'| == |strides|
        invariant forall j :: 0 <= j < k ==> strides'[j] == -strides[j] && offsets'[j] == offsets[j] + (extent - 1) * strides[j]
        invariant forall j :: k <= j < |strides| ==> strides'[j] == strides[j] && offsets'[j] == offsets[j]
      {
        offsets' := offsets'[k := offsets'[k] + strides'[k] * (extent - 1)];
        strides' := strides'[k := -strides'[k]];
        k := k + 1;
      }
      assert strides' == Negate(strides);
    }
  }

  /** `make_multi_iteration_plan_with_offset` as written: a zero extent is skipped
      before the flip, so it contributes nothing to the offsets; the remaining
      joint loops are flipped on operand 0's sign, sorted and merged. */
  method MakeMultiIterationPlanWithOffsetAsWritten(ms: seq<Mapping>) returns (plan: seq<ExtentStrides>, offsets: seq<int>)
    requires SameExtents(ms)
    ensures plan == Planned(NonZero(DimsMulti(ms)))
    ensures offsets == FlipOffset(NonZero(DimsMulti(ms)), |ms|)
  {
    var raw;
    raw, offsets := FlipNonZeroJoint(DimsMulti(ms), |ms|);
    if raw == [] {
      assert Planned([]) == [];
      return raw, offsets;
    }
    plan := Coalesce(SortDesc(raw));
  }

  /** The dimension loop of the builder above: joint loops of extent 0 are
      skipped, the others flipped on operand 0's sign, with the offsets collected. */
  method FlipNonZeroJoint(dims: seq<ExtentStrides>, n: nat) returns (raw: seq<ExtentStrides>, offsets: seq<int>)
    requires n >= 1 && Arity(dims, n)
    ensures raw == FlipAll(NonZero(dims)) && offsets == FlipOffset(NonZero(dims), n)
  {
    raw := [];
    offsets := Zeros(n);
    var i := 0;
    ghost var kept: seq<ExtentStrides> := [];
    while i < |dims|
      invariant 0 <= i <= |dims| && kept == NonZero(dims[..i])
      invariant raw == FlipAll(kept) && Arity(raw, n)
      invariant offsets == FlipOffset(kept, n)
    {
      var extent := dims[i].extent;
      if extent != 0 {
        var strides := dims[i].strides;
        var strides', offsets' := FlipJoint(extent, strides, offsets);
        KeptJointStep(dims, i, n, kept, raw, offsets, strides', offsets');
        raw, offsets := raw + [ExtentStrides(extent, strides')], offsets';
        kept := kept + [dims[i]];
      } else {
        NonZeroAt(dims, i);
      }
      i := i + 1;
    }
    assert dims[..|dims|] == dims;
  }

  /** `make_multi_iteration_plan_with_offset`, corrected: `None` when the common
      extents include a zero, otherwise the joint plan with one offset per
      operand. */
  method MakeMultiIterationPlanWithOffset(ms: seq<Mapping>) returns (r: Option<(seq<ExtentStrides>, seq<int>)>)
    requires SameExtents(ms)
    ensures r.None? <==> AnyZero(DimsMulti(ms))
    ensures r.Some? ==> r.value.0 == Planned(DimsMulti(ms)) && r.value.1 == FlipOffset(DimsMulti(ms), |ms|)
  {
    var flipped := FlipJointLoops(DimsMulti(ms), |ms|);
    if flipped.None? {
      return None;
    }
    var (raw, offsets) := flipped.value;
    return Some((Coalesce(SortDesc(raw)), offsets));
  }

  /** The dimension loop of the corrected multi-operand builders: `None` at the
      first joint loop of extent 0, otherwise every loop flipped on operand 0's
      sign, with the offsets collected. */
  method FlipJointLoops(dims: seq<ExtentStrides>, n: nat) returns (r: Option<(seq<ExtentStrides>, seq<int>)>)
    requires n >= 1 && Arity(dims, n)
    ensures r.None? <==> AnyZero(dims)
    ensures r.Some? ==> r.value.0 == FlipAll(dims) && Arity(r.value.0, n) && r.value.1 == FlipOffset(dims, n)
  {
    var raw: seq<ExtentStrides> := [];
    var offsets := Zeros(n);
    var i := 0;
    while i < |dims|
      invariant 0 <= i <= |dims| && forall k :: 0 <= k < i ==> dims[k].extent != 0
      invariant raw == FlipAll(dims[..i]) && Arity(raw, n)
      invariant offsets == FlipOffset(dims[..i], n)
    {
      var extent := dims[i].extent;
      assert dims[..i + 1] == dims[..i] + [dims[i]];
      if extent == 0 {
        return None;
      }
      var strides := dims[i].strides;
      var strides', offsets' := FlipJoint(extent, strides, offsets);
      JointFlipStep(dims, i, n, raw, offsets, strides', offsets');
      raw, offsets := raw + [ExtentStrides(extent, strides')], offsets';
      i := i + 1;
    }
    assert dims[..|dims|] == dims;
    return Some((raw, offsets));
  }

  /** What the corrected builders promise: an empty view has no visits; any other
      view's plan, started from the base moved by the offsets, visits every
      element the view's own loop nest visits, as often, and no other. */
  lemma PlanCoversView(p: seq<ExtentStrides>, b: seq<int>)
    ensures AnyZero(p) ==> Visits(p, b) == []
    ensures multiset(Visits(Planned(p), Add(b, FlipOffset(p, |b|)))) == multiset(Visits(p, b))
  {
    if AnyZero(p) {
      var k :| 0 <= k < |p| && p[k].extent == 0;
      VisitsOfZeroExtent(p, b, k);
    }
    PlannedVisits(p, b);
  }

  // ---------------------------------------------------------------------------
  // Examples from tests/mdspan/test_iteration_plan.cpp

  lemma SortTwo(a: ExtentStrides, b: ExtentStrides)
    ensures SortDesc([a, b]) == if AbsStride0(a) >= AbsStride0(b) then [a, b] else [b, a]
  {
    assert [a, b][1..] == [b] && [b][1..] == [];
    assert SortDesc([b]) == [b];
    assert Insert(a, []) == [a];
    assert SortDesc([a, b]) == Insert(a, [b]);
  }

  lemma CoalesceTwo(a: ExtentStrides, b: ExtentStrides)
    ensures Coalesce([a, b]) == if Strides.CanMergeWithInner(a, b) then [Strides.MergeWithInner(a, b)] else [a, b]
  {
    assert [a, b][1..] == [b] && [b][1..] == [];
    assert Coalesce([a, b]) == CoalesceFrom([a], [b]);
    if Strides.CanMergeWithInner(a, b) {
      assert [a][..0] + [Strides.MergeWithInner(a, b)] == [Strides.MergeWithInner(a, b)];
    } else {
      assert [a] + [b] == [a, b];
    }
  }

  lemma FlipOffsetTwo(a: ExtentStrides, b: ExtentStrides, n: nat)
    ensures FlipOffset([a, b], n) == FlipOffset([a] + [b], n)
    ensures FlipOffset([a], n) == if Flips(a) then Shift(Zeros(n), a.strides, a.extent - 1) else Zeros(n)
  {
    assert [a] == [] + [a];
    FlipOffsetStep([], a, n);
  }

  /** `MixedSignsNoMerge`: extents {4, 3}, strides {-7, 1}; the plan. */
  lemma MixedSignsNoMergeExample()
    ensures Planned(Dims(Mapping([4, 3], [-7, 1]))) == [ExtentStrides(4, [7]), ExtentStrides(3, [1])]
  {
    var a, b := ExtentStrides(4, [-7]), ExtentStrides(3, [1]);
    assert Dims(Mapping([4, 3], [-7, 1])) == [a, b];
    assert Negate([-7]) == [7];
    var f := [ExtentStrides(4, [7]), b];
    assert FlipAll([a, b]) == f;
    SortTwo(f[0], f[1]);
    CoalesceTwo(f[0], f[1]);
  }

  /** `MixedSignsNoMerge`: the offset. */
  lemma MixedSignsNoMergeOffset()
    ensures FlipOffset(Dims(Mapping([4, 3], [-7, 1])), 1) == [-21]
  {
    var a, b := ExtentStrides(4, [-7]), ExtentStrides(3, [1]);
    assert Dims(Mapping([4, 3], [-7, 1])) == [a, b];
    FlipOffsetTwo(a, b, 1);
    FlipOffsetStep([a], b, 1);
    assert Shift(Zeros(1), a.strides, 3) == [-21];
  }

  /** `MergeableNegativeStrides`: extents {4, 5}, strides {-1, -4}; the plan. */
  lemma MergeableNegativeStridesExample()
    ensures Planned(Dims(Mapping([4, 5], [-1, -4]))) == [ExtentStrides(20, [1])]
  {
    var a, b := ExtentStrides(4, [-1]), ExtentStrides(5, [-4]);
    assert Dims(Mapping([4, 5], [-1, -4])) == [a, b];
    assert Negate([-1]) == [1] && Negate([-4]) == [4];
    var fa, fb := ExtentStrides(4, [1]), ExtentStrides(5, [4]);
    assert FlipAll([a, b]) == [fa, fb];
    SortTwo(fa, fb);
    assert Strides.CanMergeWithInner(fb, fa);
    CoalesceTwo(fb, fa);
  }

  /** `MergeableNegativeStrides`: the offset. */
  lemma MergeableNegativeStridesOffset()
    ensures FlipOffset(Dims(Mapping([4, 5], [-1, -4])), 1) == [-19]
  {
    var a, b := ExtentStrides(4, [-1]), ExtentStrides(5, [-4]);
    assert Dims(Mapping([4, 5], [-1, -4])) == [a, b];
    FlipOffsetTwo(a, b, 1);
    FlipOffsetStep([a], b, 1);
    assert Shift(Zeros(1), a.strides, 3) == [-3];
    assert Shift([-3], b.strides, 4) == [-19];
  }

  /** `InnerNegativeStride`: extent {10}, stride {-1}. */
  lemma InnerNegativeStrideExample()
    ensures Planned(Dims(Mapping([10], [-1]))) == [ExtentStrides(10, [1])]
    ensures FlipOffset(Dims(Mapping([10], [-1])), 1) == [-9]
  {
    var a := ExtentStrides(10, [-1]);
    assert Dims(Mapping([10], [-1])) == [a];
    assert Negate([-1]) == [1];
    assert FlipAll([a]) == [ExtentStrides(10, [1])];
    FlipOffsetTwo(a, a, 1);
    assert Shift(Zeros(1), a.strides, 9) == [-9];
  }

  /** A view with extents {0, 5} and strides {5, 1} has no elements, yet the
      builder as written returns the plan (5, 1), which visits five offsets. */
  lemma ZeroExtentPlanAsWritten()
    ensures Visits(Dims(Mapping([0, 5], [5, 1])), [0]) == []
    ensures Planned(NonZero(Dims(Mapping([0, 5], [5, 1])))) == [ExtentStrides(5, [1])]
    ensures |Visits(Planned(NonZero(Dims(Mapping([0, 5], [5, 1])))), [0])| == 5
  {
    var d := Dims(Mapping([0, 5], [5, 1]));
    assert d == [ExtentStrides(0, [5]), ExtentStrides(5, [1])];
    VisitsOfZeroExtent(d, [0], 0);
    assert d[..1] == [d[0]] && d[..1][..0] == [];
    assert NonZero(d) == [ExtentStrides(5, [1])];
    assert FlipAll([ExtentStrides(5, [1])]) == [ExtentStrides(5, [1])];
    VisitsLength([ExtentStrides(5, [1])], [0]);
    assert Product([ExtentStrides(5, [1])]) == 5 * Product([]);
  }

  // ---------------------------------------------------------------------------
  // Applying an operation along a plan (`UnrollHelper`)

  /** Operand 0's offset in each visit. */
  function Positions(vs: seq<seq<int>>): (ps: seq<int>)
    ensures |ps| == |vs|
  {
    seq(|vs|, k requires 0 <= k < |vs| => if vs[k] == [] then 0 else vs[k][0])
  }

  lemma PositionsAppend(vs: seq<seq<int>>, ws: seq<seq<int>>)
    ensures Positions(vs + ws) == Positions(vs) + Positions(ws)
  {
  }

  /** The offsets a one-operand plan visits from `off`, in visiting order: the
      loop nest written directly on offsets. */
  function Offsets(plan: seq<ExtentStride>, off: int): seq<int>
    decreases |plan|, 1
  {
    if plan == [] then [off] else OffsetsUpTo(plan, off, plan[0].extent)
  }

  /** The offsets of the first `i` iterations of the outermost loop. */
  function OffsetsUpTo(plan: seq<ExtentStride>, off: int, i: nat): seq<int>
    requires plan != []
    decreases |plan|, 0, i
  {
    if i == 0 then [] else OffsetsUpTo(plan, off, i - 1) + Offsets(plan[1..], off + (i - 1) * plan[0].stride)
  }

  lemma {:induction false} OffsetsUpToVisits(plan: seq<ExtentStride>, off: int, i: nat)
    requires plan != []
    requires forall c :: Offsets(plan[1..], c) == Positions(Visits(AsPlan(plan[1..]), [c]))
    ensures OffsetsUpTo(plan, off, i) == Positions(Concat(Loop(AsPlan(plan), [off]), i))
  {
    if i > 0 {
      var L := Loop(AsPlan(plan), [off]);
      OffsetsUpToVisits(plan, off, i - 1);
      assert AsPlan(plan)[1..] == AsPlan(plan[1..]);
      assert Shift([off], AsPlan(plan)[0].strides, i - 1) == [off + (i - 1) * plan[0].stride];
      PositionsAppend(Concat(L, i - 1), L(i - 1));
    }
  }

  /** The direct offsets are operand 0's offsets in the plan's loop nest. */
  lemma {:induction false} OffsetsVisits(plan: seq<ExtentStride>, off: int)
    ensures Offsets(plan, off) == Positions(Visits(AsPlan(plan), [off]))
    decreases |plan|
  {
    if plan != [] {
      forall c ensures Offsets(plan[1..], c) == Positions(Visits(AsPlan(plan[1..]), [c])) {
        OffsetsVisits(plan[1..], c);
      }
      OffsetsUpToVisits(plan, off, plan[0].extent);
    }
  }

  /** The first `i` iterations are a prefix of the first `e`. */
  lemma {:induction false} OffsetsUpToPrefix(plan: seq<ExtentStride>, off: int, i: nat, e: nat)
    requires plan != [] && i <= e
    ensures |OffsetsUpTo(plan, off, i)| <= |OffsetsUpTo(plan, off, e)|
    ensures OffsetsUpTo(plan, off, e)[..|OffsetsUpTo(plan, off, i)|] == OffsetsUpTo(plan, off, i)
  {
    if i < e {
      OffsetsUpToPrefix(plan, off, i, e - 1);
    }
  }

  predicate InBounds(ps: seq<int>, n: nat)
  {
    forall k :: 0 <= k < |ps| ==> 0 <= ps[k] < n
  }

  /** `op` applied in turn at each offset of `ps`. */
  function ApplyAll<T>(s: seq<T>, ps: seq<int>, op: T -> T): (r: seq<T>)
    requires InBounds(ps, |s|)
    ensures |r| == |s|
  {
    if ps == [] then s
    else
      var t := ApplyAll(s, ps[..|ps| - 1], op);
      var q := ps[|ps| - 1];
      t[q := op(t[q])]
  }

  /** `op` applied `n` times. */
  function Iterate<T>(op: T -> T, n: nat, x: T): T
  {
    if n == 0 then x else op(Iterate(op, n - 1, x))
  }

  /** Each element ends up with `op` applied as often as its offset occurs. */
  lemma {:induction false} ApplyAllCount<T>(s: seq<T>, ps: seq<int>, op: T -> T, j: int)
    requires InBounds(ps, |s|) && 0 <= j < |s|
    ensures ApplyAll(s, ps, op)[j] == Iterate(op, multiset(ps)[j], s[j])
  {
    if ps != [] {
      var init := ps[..|ps| - 1];
      assert ps == init + [ps[|ps| - 1]];
      ApplyAllCount(s, init, op, j);
    }
  }

  /** Applying along two orders of the same offsets gives the same result. */
  lemma ApplyAllPermutation<T>(s: seq<T>, xs: seq<int>, ys: seq<int>, op: T -> T)
    requires InBounds(xs, |s|) && multiset(xs) == multiset(ys)
    ensures InBounds(ys, |s|) && ApplyAll(s, xs, op) == ApplyAll(s, ys, op)
  {
    forall k | 0 <= k < |ys| ensures 0 <= ys[k] < |s| {
      assert ys[k] in multiset(xs);
    }
    forall j | 0 <= j < |s| ensures ApplyAll(s, xs, op)[j] == ApplyAll(s, ys, op)[j] {
      ApplyAllCount(s, xs, op, j);
      ApplyAllCount(s, ys, op, j);
    }
  }

  predicate Unique(ps: seq<int>)
  {
    forall i, j :: 0 <= i < j < |ps| ==> ps[i] != ps[j]
  }

  lemma {:induction false} UniqueCount(ps: seq<int>, x: int)
    requires Unique(ps)
    ensures multiset(ps)[x] == if x in ps then 1 else 0
  {
    if ps != [] {
      var init := ps[..|ps| - 1];
      assert ps == init + [ps[|ps| - 1]];
      UniqueCount(init, x);
    }
  }

  /** Offsets that occur once each: every element at one of them gets `op` once,
      every other element is untouched. */
  lemma ApplyAllOnce<T>(s: seq<T>, ps: seq<int>, op: T -> T)
    requires InBounds(ps, |s|) && Unique(ps)
    ensures forall j :: 0 <= j < |s| ==> ApplyAll(s, ps, op)[j] == if j in ps then op(s[j]) else s[j]
  {
    forall j | 0 <= j < |s| ensures ApplyAll(s, ps, op)[j] == if j in ps then op(s[j]) else s[j] {
      ApplyAllCount(s, ps, op, j);
      UniqueCount(ps, j);
    }
  }

  lemma {:induction false} ApplyAllAppend<T>(s: seq<T>, xs: seq<int>, ys: seq<int>, op: T -> T)
    requires InBounds(xs + ys, |s|)
    ensures InBounds(xs, |s|) && InBounds(ys, |s|)
    ensures ApplyAll(s, xs + ys, op) == ApplyAll(ApplyAll(s, xs, op), ys, op)
  {
    assert forall k :: 0 <= k < |xs| ==> xs[k] == (xs + ys)[k];
    assert forall k :: 0 <= k < |ys| ==> ys[k] == (xs + ys)[|xs| + k];
    if ys != [] {
      var init := ys[..|ys| - 1];
      assert (xs + ys)[..|xs + ys| - 1] == xs + init;
      ApplyAllAppend(s, xs, init, op);
    } else {
      assert xs + ys == xs;
    }
  }

  lemma InBoundsPrefix(xs: seq<int>, k: nat, n: nat)
    requires InBounds(xs, n) && k <= |xs|
    ensures InBounds(xs[..k], n)
  {
  }

  /** One more iteration of the outermost loop: its offsets are within bounds
      whenever all of the loop's offsets are. */
  lemma LoopStep(plan: seq<ExtentStride>, off: int, i: nat, n: nat)
    requires plan != [] && i < plan[0].extent && InBounds(Offsets(plan, off), n)
    ensures OffsetsUpTo(plan, off, i + 1) == OffsetsUpTo(plan, off, i) + Offsets(plan[1..], off + i * plan[0].stride)
    ensures InBounds(OffsetsUpTo(plan, off, i + 1), n)
    ensures |plan| == 1 ==> Offsets(plan[1..], off + i * plan[0].stride) == [off + i * plan[0].stride]
  {
    OffsetsUpToPrefix(plan, off, i + 1, plan[0].extent);
    InBoundsPrefix(Offsets(plan, off), |OffsetsUpTo(plan, off, i + 1)|, n);
  }

  /** `op` applied along `ps` and then along `qs`. */
  lemma ApplyAllStep<T>(s: seq<T>, ps: seq<int>, qs: seq<int>, op: T -> T)
    requires InBounds(ps + qs, |s|)
    ensures InBounds(ps, |s|) && InBounds(qs, |s|)
    ensures ApplyAll(s, ps + qs, op) == ApplyAll(ApplyAll(s, ps, op), qs, op)
    ensures |qs| == 1 ==> ApplyAll(s, ps + qs, op) == ApplyAll(s, ps, op)[qs[0] := op(ApplyAll(s, ps, op)[qs[0]])]
  {
    ApplyAllAppend(s, ps, qs, op);
    if |qs| == 1 {
      assert qs[..0] == [];
    }
  }

  lemma UnitStride(off: int, i: int, stride: int)
    requires stride == 1
    ensures off + i * stride == off + i
  {
  }

  /** One index of the innermost loop: `op` applied once more, at `off + i * stride`. */
  lemma InnermostStep<T>(s: seq<T>, plan: seq<ExtentStride>, off: int, i: nat, at: int, op: T -> T)
    requires |plan| == 1 && i < plan[0].extent && InBounds(Offsets(plan, off), |s|)
    requires at == off + i * plan[0].stride
    ensures var done := OffsetsUpTo(plan, off, i);
      0 <= at < |s| && InBounds(done, |s|) && InBounds(OffsetsUpTo(plan, off, i + 1), |s|) &&
      ApplyAll(s, OffsetsUpTo(plan, off, i + 1), op) == ApplyAll(s, done, op)[at := op(ApplyAll(s, done, op)[at])]
  {
    var done := OffsetsUpTo(plan, off, i);
    LoopStep(plan, off, i, |s|);
    ApplyAllStep(s, done, [at], op);
  }

  /** One index of an outer loop: the rest of the plan, run `i` strides further
      on, continues `op` along the outer loop's offsets. */
  lemma OuterStep<T>(s: seq<T>, plan: seq<ExtentStride>, off: int, i: nat, next: int, op: T -> T)
    requires plan != [] && i < plan[0].extent && InBounds(Offsets(plan, off), |s|)
    requires next == off + i * plan[0].stride
    ensures var done, more := OffsetsUpTo(plan, off, i), Offsets(plan[1..], next);
      InBounds(done, |s|) && InBounds(more, |s|) && InBounds(OffsetsUpTo(plan, off, i + 1), |s|) &&
      ApplyAll(s, OffsetsUpTo(plan, off, i + 1), op) == ApplyAll(ApplyAll(s, done, op), more, op)
  {
    var done, more := OffsetsUpTo(plan, off, i), Offsets(plan[1..], next);
    LoopStep(plan, off, i, |s|);
    assert OffsetsUpTo(plan, off, i + 1) == done + more;
    ApplyAllStep(s, done, more, op);
  }

  /** `UnrollHelper::run` for the innermost loop (depth 0): `op` is applied at
      `off + i * stride` for each index `i`, with a separate loop for stride 1. */
  method RunInnermost<T>(a: array<T>, plan: seq<ExtentStride>, off: int, op: T -> T)
    requires |plan| == 1 && InBounds(Offsets(plan, off), a.Length)
    modifies a
    ensures a[..] == ApplyAll(old(a[..]), Offsets(plan, off), op)
  {
    if plan[0].stride == 1 {
      RunUnitStride(a, plan, off, op);
    } else {
      RunStrided(a, plan, off, op);
    }
  }

  /** The innermost loop when its stride is 1: `op` at `off + i`. */
  method RunUnitStride<T>(a: array<T>, plan: seq<ExtentStride>, off: int, op: T -> T)
    requires |plan| == 1 && plan[0].stride == 1 && InBounds(Offsets(plan, off), a.Length)
    modifies a
    ensures a[..] == ApplyAll(old(a[..]), Offsets(plan, off), op)
  {
    var extent := plan[0].extent;
    ghost var a0 := a[..];
    var i := 0;
    while i < extent
      invariant 0 <= i <= extent
      invariant InBounds(OffsetsUpTo(plan, off, i), a.Length)
      invariant a[..] == ApplyAll(a0, OffsetsUpTo(plan, off, i), op)
    {
      UnitStride(off, i, plan[0].stride);
      InnermostStep(a0, plan, off, i, off + i, op);
      a[off + i] := op(a[off + i]);
      i := i + 1;
    }
  }

  /** The innermost loop with any other stride: `op` at `off + i * stride`. */
  method RunStrided<T>(a: array<T>, plan: seq<ExtentStride>, off: int, op: T -> T)
    requires |plan| == 1 && InBounds(Offsets(plan, off), a.Length)
    modifies a
    ensures a[..] == ApplyAll(old(a[..]), Offsets(plan, off), op)
  {
    var extent := plan[0].extent;
    var stride := plan[0].stride;
    ghost var a0 := a[..];
    var i, at := 0, off;
    while i < extent
      invariant 0 <= i <= extent && at == off + i * stride
      invariant InBounds(OffsetsUpTo(plan, off, i), a.Length)
      invariant a[..] == ApplyAll(a0, OffsetsUpTo(plan, off, i), op)
    {
      InnermostStep(a0, plan, off, i, at, op);
      a[at] := op(a[at]);
      NextOffset(off, i, stride, at);
      i, at := i + 1, at + stride;
    }
  }

  /** `UnrollHelper::run` and `run_dynamic`: every loop but the innermost runs the
      rest of the plan once per index, `i` strides further on.  The result is
      `op` applied along the plan's offsets in visiting order.  The compile-time
      unrolling of the innermost three loops is one recursion by depth here. */
  method Run<T>(a: array<T>, plan: seq<ExtentStride>, off: int, op: T -> T)
    requires plan != [] && InBounds(Offsets(plan, off), a.Length)
    modifies a
    ensures a[..] == ApplyAll(old(a[..]), Offsets(plan, off), op)
    decreases |plan|
  {
    if |plan| == 1 {
      RunInnermost(a, plan, off, op);
      return;
    }
    var extent := plan[0].extent;
    var stride := plan[0].stride;
    ghost var a0 := a[..];
    var i, next := 0, off;
    while i < extent
      invariant 0 <= i <= extent && next == off + i * stride
      invariant InBounds(OffsetsUpTo(plan, off, i), a.Length)
      invariant a[..] == ApplyAll(a0, OffsetsUpTo(plan, off, i), op)
    {
      OuterStep(a0, plan, off, i, next, op);
      Run(a, plan[1..], next, op);
      NextOffset(off, i, stride, next);
      i, next := i + 1, next + stride;
    }
  }
}
