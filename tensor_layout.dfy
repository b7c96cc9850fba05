/** Row-major and column-major strides (src/tensor/layout.hpp).

    `layout_right_strides` runs over the dimensions from the last to the first,
    `layout_left_strides` from the first to the last; each stores the running
    product of the extents seen so far as the stride of the current dimension.
    `LayoutRight` and `LayoutLeft` turn those strides into a `layout_stride`
    mapping.  The row-major mapping enumerates the buffer `0, 1, 2, ...` in index
    order: it is unique and has no gaps. */
module TensorLayout {
  import opened Concats
  import opened Strides
  import opened LoopNests
  import opened IterationPlan

  /** The number of elements of a shape: the product of its extents. */
  function Volume(exts: seq<nat>): nat
  {
    if exts == [] then 1 else exts[0] * Volume(exts[1..])
  }

  lemma {:induction false} VolumeAppend(exts: seq<nat>, x: nat)
    ensures Volume(exts + [x]) == Volume(exts) * x
  {
    if exts != [] {
      assert (exts + [x])[1..] == exts[1..] + [x];
      VolumeAppend(exts[1..], x);
    }
  }

  /** Row-major strides: dimension `d` steps over all later dimensions. */
  function RightStrides(exts: seq<nat>): (s: seq<int>)
    ensures |s| == |exts|
  {
    seq(|exts|, d requires 0 <= d < |exts| => Volume(exts[d + 1..]))
  }

  /** Column-major strides: dimension `d` steps over all earlier dimensions. */
  function LeftStrides(exts: seq<nat>): (s: seq<int>)
    ensures |s| == |exts|
  {
    seq(|exts|, d requires 0 <= d < |exts| => Volume(exts[..d]))
  }

  /** `layout_right_strides`: the loop from the last dimension down to the first,
      with the running product `run`. */
  method LayoutRightStrides(exts: seq<nat>) returns (strides: seq<int>)
    ensures strides == RightStrides(exts)
  {
    var a := new int[|exts|];
    var run := 1;
    var d := |exts|;
    while d > 0
      invariant 0 <= d <= |exts| && run == Volume(exts[d..])
      invariant forall k :: d <= k < |exts| ==> a[k] == Volume(exts[k + 1..])
    {
      d := d - 1;
      a[d] := run;
      assert exts[d..][1..] == exts[d + 1..];
      run := run * exts[d];
    }
    strides := a[..];
  }

  /** `layout_left_strides`: the loop from the first dimension up to the last. */
  method LayoutLeftStrides(exts: seq<nat>) returns (strides: seq<int>)
    ensures strides == LeftStrides(exts)
  {
    var a := new int[|exts|];
    var run := 1;
    var d := 0;
    while d < |exts|
      invariant 0 <= d <= |exts| && run == Volume(exts[..d])
      invariant forall k :: 0 <= k < d ==> a[k] == Volume(exts[..k])
    {
      a[d] := run;
      assert exts[..d + 1] == exts[..d] + [exts[d]];
      VolumeAppend(exts[..d], exts[d]);
      run := run * exts[d];
      d := d + 1;
    }
    strides := a[..];
  }

  /** `LayoutRight`: the `layout_stride` mapping with row-major strides. */
  method LayoutRight(exts: seq<nat>) returns (m: Mapping)
    ensures m.WellFormed() && m == Mapping(exts, RightStrides(exts))
  {
    var strides := LayoutRightStrides(exts);
    m := Mapping(exts, strides);
  }

  /** `LayoutLeft`: the `layout_stride` mapping with column-major strides. */
  method LayoutLeft(exts: seq<nat>) returns (m: Mapping)
    ensures m.WellFormed() && m == Mapping(exts, LeftStrides(exts))
  {
    var strides := LayoutLeftStrides(exts);
    m := Mapping(exts, strides);
  }

  /** The recurrences the two loops implement: the innermost (right) or
      outermost (left) stride is 1, and each next stride is the previous one
      times the extent in between. */
  lemma StridesRecurrences(exts: seq<nat>)
    ensures |exts| > 0 ==> RightStrides(exts)[|exts| - 1] == 1 && LeftStrides(exts)[0] == 1
    ensures forall d :: 0 <= d < |exts| - 1 ==> RightStrides(exts)[d] == RightStrides(exts)[d + 1] * exts[d + 1]
    ensures forall d :: 0 <= d < |exts| - 1 ==> LeftStrides(exts)[d + 1] == LeftStrides(exts)[d] * exts[d]
  {
    forall d | 0 <= d < |exts| - 1
      ensures RightStrides(exts)[d] == RightStrides(exts)[d + 1] * exts[d + 1]
      ensures LeftStrides(exts)[d + 1] == LeftStrides(exts)[d] * exts[d]
    {
      assert exts[d + 1..][1..] == exts[d + 2..];
      assert exts[..d + 1] == exts[..d] + [exts[d]];
      VolumeAppend(exts[..d], exts[d]);
    }
  }

  function Reverse<T>(s: seq<T>): seq<T>
  {
    seq(|s|, i requires 0 <= i < |s| => s[|s| - 1 - i])
  }

  /** Reversing peels the first element off to the end. */
  lemma ReverseCons<T>(s: seq<T>)
    requires s != []
    ensures Reverse(s) == Reverse(s[1..]) + [s[0]]
  {
    var r, t := Reverse(s), Reverse(s[1..]) + [s[0]];
    forall i | 0 <= i < |s| ensures r[i] == t[i] {
      if i < |s| - 1 {
        assert t[i] == s[1..][|s| - 2 - i];
      }
    }
  }

  lemma {:induction false} VolumeReverse(exts: seq<nat>)
    ensures Volume(Reverse(exts)) == Volume(exts)
  {
    if exts != [] {
      ReverseCons(exts);
      VolumeReverse(exts[1..]);
      VolumeAppend(Reverse(exts[1..]), exts[0]);
    }
  }

  /** Column-major strides are the row-major strides of the reversed shape,
      reversed. */
  lemma LeftIsReversedRight(exts: seq<nat>)
    ensures LeftStrides(exts) == Reverse(RightStrides(Reverse(exts)))
  {
    forall d | 0 <= d < |exts| ensures LeftStrides(exts)[d] == Reverse(RightStrides(Reverse(exts)))[d] {
      LeftReversedAt(exts, d);
    }
  }

  /** The last `d` elements of a reversed sequence are its first `d`, reversed. */
  lemma ReverseSuffix<T>(s: seq<T>, d: nat)
    requires d <= |s|
    ensures Reverse(s)[|s| - d..] == Reverse(s[..d])
  {
    var a, b := Reverse(s)[|s| - d..], Reverse(s[..d]);
    forall k | 0 <= k < d ensures a[k] == b[k] {
      assert a[k] == Reverse(s)[|s| - d + k] == s[d - 1 - k];
    }
  }

  /** One position of `LeftIsReversedRight`. */
  lemma LeftReversedAt(exts: seq<nat>, d: nat)
    requires d < |exts|
    ensures LeftStrides(exts)[d] == Reverse(RightStrides(Reverse(exts)))[d]
  {
    var n := |exts|;
    var r := Reverse(exts);
    var rs := RightStrides(r);
    var j := n - 1 - d;
    assert Reverse(rs)[d] == rs[j];
    assert rs[j] == Volume(r[j + 1..]);
    ReverseSuffix(exts, d);
    VolumeReverse(exts[..d]);
  }

  // ---------------------------------------------------------------------------
  // The row-major mapping enumerates its buffer in order

  /** Each row-major loop merges with the next one: after merging the first
      `k + 1` loops, the rest merge into one loop over the whole volume. */
  lemma {:induction false} RightDimsMerge(exts: seq<nat>, k: nat)
    requires k < |exts|
    ensures CoalesceFrom([ExtentStrides(Volume(exts[..k + 1]), [Volume(exts[k + 1..])])],
                         Dims(Mapping(exts, RightStrides(exts)))[k + 1..])
            == [ExtentStrides(Volume(exts), [1])]
    decreases |exts| - k
  {
    var dims := Dims(Mapping(exts, RightStrides(exts)));
    if k + 1 == |exts| {
      assert exts[..k + 1] == exts && exts[k + 1..] == [];
      assert dims[k + 1..] == [];
    } else {
      RightMergeStep(exts, k);
      RightDimsMerge(exts, k + 1);
    }
  }

  /** The loops merged so far absorb the next row-major loop. */
  lemma RightMergeStep(exts: seq<nat>, k: nat)
    requires k + 1 < |exts|
    ensures CoalesceFrom([ExtentStrides(Volume(exts[..k + 1]), [Volume(exts[k + 1..])])],
                         Dims(Mapping(exts, RightStrides(exts)))[k + 1..])
            == CoalesceFrom([ExtentStrides(Volume(exts[..k + 2]), [Volume(exts[k + 2..])])],
                            Dims(Mapping(exts, RightStrides(exts)))[k + 2..])
  {
    var dims := Dims(Mapping(exts, RightStrides(exts)));
    var done := ExtentStrides(Volume(exts[..k + 1]), [Volume(exts[k + 1..])]);
    var x := dims[k + 1];
    RightMergeFacts(exts, k, dims, done, x);
    MergeHead(done, x, dims[k + 2..]);
  }

  /** A head loop that can absorb the next one is replaced by the merged loop. */
  lemma MergeHead(done: ExtentStrides, x: ExtentStrides, rest: seq<ExtentStrides>)
    requires Strides.CanMergeWithInner(done, x)
    ensures CoalesceFrom([done], [x] + rest) == CoalesceFrom([Strides.MergeWithInner(done, x)], rest)
  {
    var r := [x] + rest;
    assert r != [] && r[0] == x && r[1..] == rest;
    assert [done][|[done]| - 1] == done;
    assert [done][..|[done]| - 1] + [Strides.MergeWithInner(done, x)] == [Strides.MergeWithInner(done, x)];
  }

  /** The facts `RightMergeStep` needs about the next row-major loop. */
  lemma RightMergeFacts(exts: seq<nat>, k: nat, dims: seq<ExtentStrides>, done: ExtentStrides, x: ExtentStrides)
    requires k + 1 < |exts| && dims == Dims(Mapping(exts, RightStrides(exts)))
    requires done == ExtentStrides(Volume(exts[..k + 1]), [Volume(exts[k + 1..])]) && x == dims[k + 1]
    ensures dims[k + 1..] == [x] + dims[k + 2..]
    ensures Strides.CanMergeWithInner(done, x)
    ensures Strides.MergeWithInner(done, x) == ExtentStrides(Volume(exts[..k + 2]), [Volume(exts[k + 2..])])
  {
    assert x == ExtentStrides(exts[k + 1], [Volume(exts[k + 2..])]);
    RightMergeVolumes(exts, k);
  }

  /** Splitting the row-major volume at dimension `k + 1`, from either side. */
  lemma RightMergeVolumes(exts: seq<nat>, k: nat)
    requires k + 1 < |exts|
    ensures Volume(exts[k + 1..]) == Volume(exts[k + 2..]) * exts[k + 1]
    ensures Volume(exts[..k + 1]) * exts[k + 1] == Volume(exts[..k + 2])
  {
    assert exts[k + 1..][1..] == exts[k + 2..];
    assert exts[..k + 2] == exts[..k + 1] + [exts[k + 1]];
    VolumeAppend(exts[..k + 1], exts[k + 1]);
  }

  /** The first `n` iterations of a unit-stride loop from `b` visit `b .. b + n - 1`. */
  lemma {:induction false} UnitLoopVisits(e: nat, n: nat, b: int)
    ensures Concat(Loop([ExtentStrides(e, [1])], [b]), n) == seq(n, i requires 0 <= i < n => [b + i])
  {
    if n > 0 {
      UnitLoopVisits(e, n - 1, b);
      assert [ExtentStrides(e, [1])][1..] == [];
      assert Shift([b], [1], n - 1) == [b + (n - 1)];
      assert Loop([ExtentStrides(e, [1])], [b])(n - 1) == [[b + (n - 1)]];
    }
  }

  /** A non-empty row-major mapping coalesces into one unit-stride loop over its volume. */
  lemma RightCoalesced(exts: seq<nat>)
    requires exts != []
    ensures Coalesce(Dims(Mapping(exts, RightStrides(exts)))) == [ExtentStrides(Volume(exts), [1])]
  {
    var dims := Dims(Mapping(exts, RightStrides(exts)));
    assert dims[0] == ExtentStrides(exts[0], [Volume(exts[1..])]);
    assert exts[..1] == [exts[0]] && Volume([exts[0]]) == exts[0] * Volume([]);
    RightDimsMerge(exts, 0);
  }

  /** The row-major mapping of any shape enumerates the buffer positions
      `0, 1, ..., Volume(exts) - 1` in index order, each exactly once. */
  lemma RightLayoutInOrder(exts: seq<nat>)
    ensures Positions(Visits(Dims(Mapping(exts, RightStrides(exts))), [0])) ==
            seq(Volume(exts), i requires 0 <= i < Volume(exts) => i)
  {
    var dims := Dims(Mapping(exts, RightStrides(exts)));
    var n := Volume(exts);
    if exts == [] {
      assert dims == [];
    } else {
      RightCoalesced(exts);
      CoalesceVisits(dims, [0]);
      UnitLoopVisits(n, n, 0);
    }
  }

  /** `MappingBuilderSupportsLayoutLeft` and the row-major default: a 2 x 3 shape
      has column-major strides (1, 2) and row-major strides (3, 1). */
  lemma TwoByThreeExample()
    ensures LeftStrides([2, 3]) == [1, 2] && RightStrides([2, 3]) == [3, 1]
  {
    assert [2, 3][..0] == [] && [2, 3][..1] == [2] && [2][1..] == [];
    assert [2, 3][1..] == [3] && [3][1..] == [] && [2, 3][2..] == [];
  }
}
