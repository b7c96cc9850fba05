/** Zip layouts (src/mdspan/zip_layout.hpp; src/level1/zip_layout.hpp is an
    older copy of the same code).

    A zip layout views several spans with one common shape through one index:
    each multi-index maps to one offset per span.  `StridedZipLayout` keeps a
    table of strides, one row per span; `GeneralZipLayout` keeps one child
    mapping per span.  The compile-time merging of static extents is modelled on
    values, with `None` standing for a program that does not compile. */
module ZipLayout {
  import opened Wrappers
  import opened Strides

  // ---------------------------------------------------------------------------
  // Static extents

  /** A static extent of an `extents` type: a number, or `dynamic_extent`. */
  datatype StaticExtent = Dynamic | Static(n: nat)

  /** `merge_extent<A, B>()`: equal extents merge to themselves, a dynamic extent
      yields to the other one, and two different static extents do not compile. */
  function MergeExtent(a: StaticExtent, b: StaticExtent): (r: Option<StaticExtent>)
    ensures r.None? <==> a.Static? && b.Static? && a != b
    ensures r.Some? ==> (r.value.Dynamic? <==> a.Dynamic? && b.Dynamic?)
    ensures r.Some? && a.Static? ==> r.value == a
    ensures r.Some? && b.Static? ==> r.value == b
  {
    if a == b then Some(a)
    else if a.Dynamic? then Some(b)
    else if b.Dynamic? then Some(a)
    else None
  }

  /** `merge_pack<Ns...>`: a left fold of `merge_extent`. */
  function MergePack(xs: seq<StaticExtent>): Option<StaticExtent>
    requires |xs| >= 1
    decreases |xs|
  {
    if |xs| == 1 then Some(xs[0])
    else
      match MergeExtent(xs[0], xs[1])
      case None => None
      case Some(m) => MergePack([m] + xs[2..])
  }

  /** No two static extents in the pack differ. */
  predicate Compatible(xs: seq<StaticExtent>)
  {
    forall i, j :: 0 <= i < |xs| && 0 <= j < |xs| && xs[i].Static? && xs[j].Static? ==> xs[i] == xs[j]
  }

  /** The pack merges iff its static extents agree; the result is that static
      extent, or `dynamic_extent` when every extent is dynamic.  So the order of
      the spans does not matter. */
  lemma {:induction false} MergePackSpec(xs: seq<StaticExtent>)
    requires |xs| >= 1
    ensures MergePack(xs).Some? <==> Compatible(xs)
    ensures MergePack(xs).Some? ==> (MergePack(xs).value.Dynamic? <==> forall i :: 0 <= i < |xs| ==> xs[i].Dynamic?)
    ensures MergePack(xs).Some? ==> forall i :: 0 <= i < |xs| && xs[i].Static? ==> MergePack(xs).value == xs[i]
    decreases |xs|
  {
    if |xs| > 1 {
      var r := MergeExtent(xs[0], xs[1]);
      if r.None? {
        assert !Compatible(xs) by {
          assert xs[0].Static? && xs[1].Static? && xs[0] != xs[1];
        }
      } else {
        var ys := [r.value] + xs[2..];
        MergePackSpec(ys);
        assert forall i :: 2 <= i < |xs| ==> xs[i] == ys[i - 1];
        if Compatible(xs) {
          forall i, j | 0 <= i < |ys| && 0 <= j < |ys| && ys[i].Static? && ys[j].Static? ensures ys[i] == ys[j] {
            var i', j' := if i == 0 then (if xs[0].Static? then 0 else 1) else i + 1,
                          if j == 0 then (if xs[0].Static? then 0 else 1) else j + 1;
            assert ys[i] == xs[i'] && ys[j] == xs[j'];
          }
        }
        if Compatible(ys) {
          forall i, j | 0 <= i < |xs| && 0 <= j < |xs| && xs[i].Static? && xs[j].Static? ensures xs[i] == xs[j] {
            var i', j' := if i < 2 then 0 else i - 1, if j < 2 then 0 else j - 1;
            assert ys[i'] == xs[i] && ys[j'] == xs[j];
          }
        }
      }
    }
  }

  /** The merged pack does not depend on the order of the first two spans. */
  lemma MergeExtentCommutes(a: StaticExtent, b: StaticExtent)
    ensures MergeExtent(a, b) == MergeExtent(b, a)
  {
  }

  // ---------------------------------------------------------------------------
  // Runtime extents

  /** `common_extents::make`: the first span's extents, after `CHECK_EQUAL`
      compares them with every other span's extents; a mismatch is fatal. */
  function CommonExtents(first: seq<nat>, others: seq<seq<nat>>): (r: Result<seq<nat>>)
    ensures r.Ok? <==> forall k :: 0 <= k < |others| ==> others[k] == first
    ensures r.Ok? ==> r.value == first
    ensures r.Err? ==> r.error == FatalError("CHECK_EQUAL")
  {
    if others == [] then Ok(first)
    else if others[0] != first then Err(FatalError("CHECK_EQUAL"))
    else
      var rest := CommonExtents(first, others[1..]);
      assert forall k :: 1 <= k < |others| ==> others[k] == others[1..][k - 1];
      rest
  }

  // ---------------------------------------------------------------------------
  // Array concatenation

  /** `concat(a1, a2)`: the elements of `a1`, then those of `a2`. */
  function ConcatArrays<T>(a1: seq<T>, a2: seq<T>): (r: seq<T>)
    ensures r == a1 + a2
  {
    seq(|a1| + |a2|, i requires 0 <= i < |a1| + |a2| => if i < |a1| then a1[i] else a2[i - |a1|])
  }

  /** `concat(x, a)`: `x`, then the elements of `a`. */
  function PrependArray<T>(x: T, a: seq<T>): (r: seq<T>)
    ensures r == [x] + a
  {
    seq(|a| + 1, i requires 0 <= i < |a| + 1 => if i == 0 then x else a[i - 1])
  }

  /** `concat(a, x)`: the elements of `a`, then `x`. */
  function AppendArray<T>(a: seq<T>, x: T): (r: seq<T>)
    ensures r == a + [x]
  {
    seq(|a| + 1, i requires 0 <= i < |a| + 1 => if i < |a| then a[i] else x)
  }

  // ---------------------------------------------------------------------------
  // StridedZipLayout

  /** The offset of one span: `stride[0] * ix[0] + (stride[1] * ix[1] + ... + 0)`. */
  function SpanOffset(strides: seq<int>, ix: seq<int>): int
    requires |strides| == |ix|
  {
    if strides == [] then 0 else strides[0] * ix[0] + SpanOffset(strides[1..], ix[1..])
  }

  /** The index of origin maps to offset 0 in every span. */
  lemma {:induction false} SpanOffsetOrigin(strides: seq<int>, ix: seq<int>)
    requires |strides| == |ix| && forall d :: 0 <= d < |ix| ==> ix[d] == 0
    ensures SpanOffset(strides, ix) == 0
  {
    if strides != [] {
      SpanOffsetOrigin(strides[1..], ix[1..]);
    }
  }

  /** One step along dimension `d` moves the offset by that dimension's stride. */
  lemma {:induction false} SpanOffsetStep(strides: seq<int>, ix: seq<int>, d: nat)
    requires |strides| == |ix| && d < |ix|
    ensures SpanOffset(strides, ix[d := ix[d] + 1]) == SpanOffset(strides, ix) + strides[d]
  {
    if d > 0 {
      assert ix[d := ix[d] + 1][1..] == ix[1..][d - 1 := ix[d] + 1];
      SpanOffsetStep(strides[1..], ix[1..], d - 1);
    }
  }

  /** `StridedZipLayout::mapping`: common extents and one row of strides per span. */
  datatype ZipMapping = ZipMapping(extents: seq<nat>, allStrides: seq<seq<int>>)
  {
    predicate Valid()
    {
      |allStrides| >= 1 && forall s :: 0 <= s < |allStrides| ==> |allStrides[s]| == |extents|
    }

    function NumSpans(): nat { |allStrides| }

    function Rank(): nat { |extents| }

    /** Every span has span 0's stride in every dimension. */
    predicate Strided()
      requires Valid()
    {
      forall s, d :: 0 <= s < |allStrides| && 0 <= d < |extents| ==> allStrides[s][d] == allStrides[0][d]
    }

    /** `strides()`: span 0's strides (the `DEBUG_PRECONDITION` that the layout
        is strided is compiled out), which every span shares when it is. */
    function Strides(): (r: seq<int>)
      requires Valid()
      ensures |r| == Rank()
      ensures Strided() ==> forall s :: 0 <= s < NumSpans() ==> allStrides[s] == r
    {
      allStrides[0]
    }

    /** `stride(r)`: the stride of dimension `r`, shared by every span of a
        strided layout. */
    function Stride(r: nat): (st: int)
      requires Valid() && r < Rank()
      ensures Strided() ==> forall s :: 0 <= s < NumSpans() ==> allStrides[s][r] == st
    {
      allStrides[0][r]
    }

    /** `operator()`: one offset per span. */
    function Offsets(ix: seq<int>): (o: seq<int>)
      requires Valid() && |ix| == Rank()
      ensures |o| == NumSpans()
    {
      seq(|allStrides|, s requires 0 <= s < |allStrides| => SpanOffset(allStrides[s], ix))
    }
  }

  /** `is_strided()`: the nested loop over dimensions and spans, returning
      `false` at the first stride that differs from span 0's. */
  method IsStrided(m: ZipMapping) returns (b: bool)
    requires m.Valid()
    ensures b <==> m.Strided()
  {
    var d := 0;
    while d < m.Rank()
      invariant 0 <= d <= m.Rank()
      invariant forall s, e :: 0 <= s < m.NumSpans() && 0 <= e < d ==> m.allStrides[s][e] == m.allStrides[0][e]
    {
      var s0 := m.allStrides[0][d];
      var i := 1;
      while i < m.NumSpans()
        invariant 1 <= i <= m.NumSpans()
        invariant forall s :: 0 <= s < i ==> m.allStrides[s][d] == s0
      {
        if m.allStrides[i][d] != s0 {
          return false;
        }
        i := i + 1;
      }
      d := d + 1;
    }
    return true;
  }

  /** In a strided zip layout every span maps an index to the same offset. */
  lemma StridedSameOffsets(m: ZipMapping, ix: seq<int>)
    requires m.Valid() && m.Strided() && |ix| == m.Rank()
    ensures forall s :: 0 <= s < m.NumSpans() ==> m.Offsets(ix)[s] == m.Offsets(ix)[0]
  {
    forall s | 0 <= s < m.NumSpans() ensures m.allStrides[s] == m.allStrides[0] {
    }
  }

  /** The constructor from extents and child `layout_stride` mappings: their
      strides, one row per span. */
  function FromMappings(exts: seq<nat>, maps: seq<Mapping>): (z: ZipMapping)
    requires |maps| >= 1 && forall k :: 0 <= k < |maps| ==> |maps[k].strides| == |exts|
    ensures z.Valid() && z.Rank() == |exts| && z.NumSpans() == |maps|
    ensures forall k :: 0 <= k < |maps| ==> z.allStrides[k] == maps[k].strides
  {
    ZipMapping(exts, seq(|maps|, k requires 0 <= k < |maps| => maps[k].strides))
  }

  /** The prepending constructor: the new span comes first, the other mapping's
      extents are kept. */
  function Prepend(newStrides: seq<int>, other: ZipMapping): (z: ZipMapping)
    requires other.Valid() && |newStrides| == other.Rank()
    ensures z.Valid() && z.extents == other.extents && z.NumSpans() == other.NumSpans() + 1
  {
    ZipMapping(other.extents, PrependArray(newStrides, other.allStrides))
  }

  /** The appending constructor: the new span comes last. */
  function Append(other: ZipMapping, newStrides: seq<int>): (z: ZipMapping)
    requires other.Valid() && |newStrides| == other.Rank()
    ensures z.Valid() && z.extents == other.extents && z.NumSpans() == other.NumSpans() + 1
  {
    ZipMapping(other.extents, AppendArray(other.allStrides, newStrides))
  }

  /** The merging constructor: the spans of `left`, then those of `right`, with
      `left`'s extents. */
  function Merge(left: ZipMapping, right: ZipMapping): (z: ZipMapping)
    requires left.Valid() && right.Valid() && left.Rank() == right.Rank()
    ensures z.Valid() && z.extents == left.extents && z.NumSpans() == left.NumSpans() + right.NumSpans()
  {
    ZipMapping(left.extents, ConcatArrays(left.allStrides, right.allStrides))
  }

  /** Prepending a span leaves every existing span's offsets as they were. */
  lemma PrependKeepsOffsets(a: ZipMapping, ns: seq<int>, ix: seq<int>)
    requires a.Valid() && a.Rank() == |ns| == |ix|
    ensures Prepend(ns, a).Offsets(ix) == [SpanOffset(ns, ix)] + a.Offsets(ix)
  {
    var z := Prepend(ns, a);
    assert z.allStrides == [ns] + a.allStrides;
    forall s | 1 <= s < z.NumSpans() ensures z.Offsets(ix)[s] == a.Offsets(ix)[s - 1] {
      assert z.allStrides[s] == a.allStrides[s - 1];
    }
  }

  /** Appending a span leaves every existing span's offsets as they were. */
  lemma AppendKeepsOffsets(a: ZipMapping, ns: seq<int>, ix: seq<int>)
    requires a.Valid() && a.Rank() == |ns| == |ix|
    ensures Append(a, ns).Offsets(ix) == a.Offsets(ix) + [SpanOffset(ns, ix)]
  {
    var z := Append(a, ns);
    assert z.allStrides == a.allStrides + [ns];
    forall s | 0 <= s < a.NumSpans() ensures z.Offsets(ix)[s] == a.Offsets(ix)[s] {
      assert z.allStrides[s] == a.allStrides[s];
    }
  }

  /** Merging two mappings keeps both sides' offsets, left spans first. */
  lemma MergeKeepsOffsets(a: ZipMapping, b: ZipMapping, ix: seq<int>)
    requires a.Valid() && b.Valid() && a.Rank() == b.Rank() == |ix|
    ensures Merge(a, b).Offsets(ix) == a.Offsets(ix) + b.Offsets(ix)
  {
    var z := Merge(a, b);
    assert z.allStrides == a.allStrides + b.allStrides;
    forall s | 0 <= s < z.NumSpans() ensures z.Offsets(ix)[s] == (a.Offsets(ix) + b.Offsets(ix))[s] {
      if s < a.NumSpans() {
        assert z.allStrides[s] == a.allStrides[s];
      } else {
        assert z.allStrides[s] == b.allStrides[s - a.NumSpans()];
      }
    }
  }

  /** `StridedZipLayoutMapping1D`: strides {2} and {3} over extent 4. */
  lemma OffsetsExample()
    ensures ZipMapping([4], [[2], [3]]).Offsets([0]) == [0, 0]
    ensures ZipMapping([4], [[2], [3]]).Offsets([2]) == [4, 6]
    ensures !ZipMapping([4], [[2], [3]]).Strided()
    ensures ZipMapping([4], [[5], [5]]).Strided() && ZipMapping([4], [[5], [5]]).Stride(0) == 5
  {
    var m := ZipMapping([4], [[2], [3]]);
    assert m.allStrides[1][0] != m.allStrides[0][0];
    assert [0][1..] == [] && [2][1..] == [] && [2][1..] == [] && [3][1..] == [];
    assert SpanOffset([2], [2]) == 4 && SpanOffset([3], [2]) == 6;
  }

  /** `MergePrependAppend`: prepending stride 100 and appending stride 1000 to
      the spans {1} and {10}. */
  lemma PrependAppendExample()
    ensures Prepend([100], ZipMapping([3], [[1], [10]])).Offsets([2]) == [200, 2, 20]
    ensures Append(ZipMapping([3], [[1], [10]]), [1000]).Offsets([2]) == [2, 20, 2000]
  {
    var m := ZipMapping([3], [[1], [10]]);
    PrependKeepsOffsets(m, [100], [2]);
    AppendKeepsOffsets(m, [1000], [2]);
    assert [1][1..] == [] && [2][1..] == [];
    assert SpanOffset([1], [2]) == 2 && SpanOffset([10], [2]) == 20;
    assert SpanOffset([100], [2]) == 200 && SpanOffset([1000], [2]) == 2000;
  }

  // ---------------------------------------------------------------------------
  // GeneralZipLayout

  /** `GeneralZipLayout::mapping::operator()` over `layout_stride` children: each
      child's own offset. */
  function GeneralOffsets(children: seq<Mapping>, ix: seq<int>): (o: seq<int>)
    requires forall k :: 0 <= k < |children| ==> |children[k].strides| == |ix|
    ensures |o| == |children|
  {
    seq(|children|, k requires 0 <= k < |children| => SpanOffset(children[k].strides, ix))
  }

  /** Zipping strided children in a `GeneralZipLayout` maps every index where the
      `StridedZipLayout` built from the same children does. */
  lemma GeneralAgreesWithStrided(exts: seq<nat>, children: seq<Mapping>, ix: seq<int>)
    requires |children| >= 1 && |ix| == |exts|
    requires forall k :: 0 <= k < |children| ==> |children[k].strides| == |exts|
    ensures GeneralOffsets(children, ix) == FromMappings(exts, children).Offsets(ix)
  {
  }

  /** `required_span_size`: the running maximum over the children's required
      span sizes, starting from 0. */
  method RequiredSpanSize(sizes: seq<nat>) returns (maxSize: nat)
    ensures forall k :: 0 <= k < |sizes| ==> sizes[k] <= maxSize
    ensures sizes == [] ==> maxSize == 0
    ensures sizes != [] ==> maxSize in sizes
  {
    maxSize := 0;
    var k := 0;
    while k < |sizes|
      invariant 0 <= k <= |sizes|
      invariant forall j :: 0 <= j < k ==> sizes[j] <= maxSize
      invariant k == 0 ==> maxSize == 0
      invariant k > 0 ==> maxSize in sizes[..k]
    {
      if sizes[k] > maxSize {
        maxSize := sizes[k];
      } else if k == 0 {
        assert sizes[0] == 0;
      }
      assert sizes[..k + 1] == sizes[..k] + [sizes[k]];
      k := k + 1;
    }
    assert sizes[..k] == sizes;
  }
}
