/** Extent/stride descriptors and their coalescing (src/mdspan/strides.hpp).

    An `extent_strides<N>` describes one loop dimension shared by `N` operands: the
    trip count `extent` and, per operand, the pointer increment `strides[k]`.  The
    single-operand `extent_stride` of src/mdspan/iteration_plan.hpp and
    src/level1/apply_unary.hpp is the case `N == 1`, and the two-operand
    `multi_extent_stride` the case `N == 2`. */
module Strides {
  import opened Wrappers
  import opened StaticVectors

  datatype ExtentStrides = ExtentStrides(extent: nat, strides: seq<int>)

  /** Every descriptor of `p` carries `n` strides. */
  predicate Arity(p: seq<ExtentStrides>, n: nat)
  {
    forall k :: 0 <= k < |p| ==> |p[k].strides| == n
  }

  /** `can_merge_with_inner`: an outer dimension may absorb the inner one when, for
      every operand, stepping the outer index once moves as far as running the inner
      index over its whole extent. */
  predicate CanMergeWithInner(outer: ExtentStrides, inner: ExtentStrides)
  {
    |outer.strides| == |inner.strides| &&
    forall k :: 0 <= k < |outer.strides| ==> outer.strides[k] == inner.strides[k] * inner.extent
  }

  /** `merge_with_inner`: the merged dimension runs over both index ranges, with the
      inner dimension's strides. */
  function MergeWithInner(outer: ExtentStrides, inner: ExtentStrides): (m: ExtentStrides)
    ensures m.extent == outer.extent * inner.extent && m.strides == inner.strides
  {
    ExtentStrides(outer.extent * inner.extent, inner.strides)
  }

  /** Number of loop iterations of a plan: the product of its extents. */
  function Product(p: seq<ExtentStrides>): nat
  {
    if p == [] then 1 else p[0].extent * Product(p[1..])
  }

  lemma {:induction false} ProductAppend(a: seq<ExtentStrides>, b: seq<ExtentStrides>)
    ensures Product(a + b) == Product(a) * Product(b)
  {
    if a != [] {
      var ab := a + b;
      assert ab[0] == a[0] && ab[1..] == a[1..] + b;
      ProductAppend(a[1..], b);
      MulAssoc(a[0].extent, Product(a[1..]), Product(b));
    } else {
      assert a + b == b;
    }
  }

  lemma MulAssoc(x: int, p: int, q: int)
    ensures x * (p * q) == (x * p) * q
  {
  }

  /** The coalescing scan of `coalesce_strides`: `done` holds the entries written so
      far (the last one is the current merge target) and `rest` the entries not yet
      read.  Each read entry is merged into the target when possible and otherwise
      becomes the new target. */
  function CoalesceFrom(done: seq<ExtentStrides>, rest: seq<ExtentStrides>): seq<ExtentStrides>
    requires done != []
    decreases |rest|
  {
    if rest == [] then done
    else if CanMergeWithInner(done[|done| - 1], rest[0]) then
      CoalesceFrom(done[..|done| - 1] + [MergeWithInner(done[|done| - 1], rest[0])], rest[1..])
    else
      CoalesceFrom(done + [rest[0]], rest[1..])
  }

  /** Coalescing of a whole plan (what `merge_strides_right` does after sorting). */
  function Coalesce(s: seq<ExtentStrides>): seq<ExtentStrides>
  {
    if s == [] then [] else CoalesceFrom([s[0]], s[1..])
  }

  lemma {:induction false} CoalesceFromLength(done: seq<ExtentStrides>, rest: seq<ExtentStrides>)
    requires done != []
    ensures |done| <= |CoalesceFrom(done, rest)| <= |done| + |rest|
    ensures CoalesceFrom(done, rest)[..|done| - 1] == done[..|done| - 1]
    decreases |rest|
  {
    if rest != [] {
      var last := done[|done| - 1];
      if CanMergeWithInner(last, rest[0]) {
        var next := done[..|done| - 1] + [MergeWithInner(last, rest[0])];
        CoalesceFromLength(next, rest[1..]);
        assert next[..|next| - 1] == done[..|done| - 1];
      } else {
        var next := done + [rest[0]];
        CoalesceFromLength(next, rest[1..]);
        assert CoalesceFrom(next, rest[1..])[..|done| - 1] == CoalesceFrom(next, rest[1..])[..|next| - 1][..|done| - 1];
        assert next[..|next| - 1] == done;
      }
    }
  }

  lemma {:induction false} CoalesceFromProduct(done: seq<ExtentStrides>, rest: seq<ExtentStrides>)
    requires done != []
    ensures Product(CoalesceFrom(done, rest)) == Product(done) * Product(rest)
    decreases |rest|
  {
    if rest != [] {
      var last := done[|done| - 1];
      var front := done[..|done| - 1];
      var x := rest[0];
      assert Product(rest) == x.extent * Product(rest[1..]);
      var next := if CanMergeWithInner(last, x) then front + [MergeWithInner(last, x)] else done + [x];
      assert CoalesceFrom(done, rest) == CoalesceFrom(next, rest[1..]);
      CoalesceFromProduct(next, rest[1..]);
      ProductLast(done);
      ProductLast(next);
      if CanMergeWithInner(last, x) {
        assert next[..|next| - 1] == front;
      } else {
        assert next[..|next| - 1] == done;
      }
      // Product(next) == Product(done) * x.extent in both cases
      MulShuffle(Product(front), last.extent, x.extent, Product(rest[1..]));
    }
  }

  /** The last descriptor's extent as a separate factor. */
  lemma ProductLast(p: seq<ExtentStrides>)
    requires p != []
    ensures Product(p) == Product(p[..|p| - 1]) * p[|p| - 1].extent
  {
    assert p == p[..|p| - 1] + [p[|p| - 1]];
    ProductAppend(p[..|p| - 1], [p[|p| - 1]]);
  }

  lemma MulShuffle(f: int, l: int, x: int, r: int)
    ensures f * (l * x) * r == (f * l) * (x * r)
    ensures (f * l) * x * r == (f * l) * (x * r)
  {
  }

  /** Coalescing never lengthens a plan, keeps a non-empty plan non-empty and keeps
      the number of loop iterations. */
  lemma CoalesceShape(s: seq<ExtentStrides>)
    ensures |Coalesce(s)| <= |s|
    ensures s != [] <==> Coalesce(s) != []
    ensures Product(Coalesce(s)) == Product(s)
  {
    if s != [] {
      CoalesceFromLength([s[0]], s[1..]);
      CoalesceFromProduct([s[0]], s[1..]);
      assert Product([s[0]]) == s[0].extent;
      assert s == [s[0]] + s[1..];
      ProductAppend([s[0]], s[1..]);
    }
  }

  /** Merging keeps the arity of the descriptors. */
  lemma {:induction false} CoalesceFromArity(done: seq<ExtentStrides>, rest: seq<ExtentStrides>, n: nat)
    requires done != [] && Arity(done, n) && Arity(rest, n)
    ensures Arity(CoalesceFrom(done, rest), n)
    decreases |rest|
  {
    if rest != [] {
      var last := done[|done| - 1];
      if CanMergeWithInner(last, rest[0]) {
        CoalesceFromArity(done[..|done| - 1] + [MergeWithInner(last, rest[0])], rest[1..], n);
      } else {
        CoalesceFromArity(done + [rest[0]], rest[1..], n);
      }
    }
  }

  lemma CoalesceArity(s: seq<ExtentStrides>, n: nat)
    requires Arity(s, n)
    ensures Arity(Coalesce(s), n)
  {
    if s != [] {
      CoalesceFromArity([s[0]], s[1..], n);
    }
  }

  /** A strided pair of descriptors with no contiguity is left alone: the plan
      (4 x stride 7, 3 x stride 1) of a 4 x 3 view whose rows are padded to 7. */
  lemma CoalesceKeepsGaps()
    ensures Coalesce([ExtentStrides(4, [7]), ExtentStrides(3, [1])])
         == [ExtentStrides(4, [7]), ExtentStrides(3, [1])]
  {
    var outer, inner := ExtentStrides(4, [7]), ExtentStrides(3, [1]);
    assert outer.strides[0] != inner.strides[0] * inner.extent;
  }

  // ---------------------------------------------------------------------------
  // Sorting by the first stride, largest first (the `std::sort` calls)

  /** The sort key of the three-operand `coalesce_strides` and of the
      `src/mdspan/iteration_plan.hpp` builders: |strides[0]|. */
  function AbsStride0(e: ExtentStrides): nat
  {
    if |e.strides| == 0 then 0 else if e.strides[0] < 0 then -e.strides[0] else e.strides[0]
  }

  /** Inserting `x` into a plan sorted by `AbsStride0`, largest first. */
  function Insert(x: ExtentStrides, s: seq<ExtentStrides>): (r: seq<ExtentStrides>)
    ensures multiset(r) == multiset(s) + multiset{x} && |r| == |s| + 1
  {
    if s == [] || AbsStride0(x) >= AbsStride0(s[0]) then [x] + s
    else
      assert s == [s[0]] + s[1..];
      [s[0]] + Insert(x, s[1..])
  }

  predicate SortedDesc(s: seq<ExtentStrides>)
  {
    forall i, j :: 0 <= i < j < |s| ==> AbsStride0(s[i]) >= AbsStride0(s[j])
  }

  /** `std::sort` by |strides[0]| descending, as an insertion sort.  Any order of
      entries with equal keys is allowed by `std::sort`; this one is stable. */
  function SortDesc(s: seq<ExtentStrides>): seq<ExtentStrides>
  {
    if s == [] then [] else Insert(s[0], SortDesc(s[1..]))
  }

  lemma {:induction false} InsertSorted(x: ExtentStrides, s: seq<ExtentStrides>)
    requires SortedDesc(s)
    ensures SortedDesc(Insert(x, s))
  {
    if s != [] && AbsStride0(x) < AbsStride0(s[0]) {
      InsertSorted(x, s[1..]);
      var r := Insert(x, s[1..]);
      forall j | 0 <= j < |r| ensures AbsStride0(s[0]) >= AbsStride0(r[j]) {
        assert r[j] in multiset(s[1..]) + multiset{x};
        if r[j] != x {
          SortedHeadBound(s, r[j]);
        }
      }
      assert Insert(x, s) == [s[0]] + r;
    }
  }

  /** The head of a sorted plan has the largest key. */
  lemma SortedHeadBound(s: seq<ExtentStrides>, y: ExtentStrides)
    requires SortedDesc(s) && s != [] && y in s[1..]
    ensures AbsStride0(s[0]) >= AbsStride0(y)
  {
    var k :| 0 <= k < |s[1..]| && s[1..][k] == y;
    assert s[k + 1] == y;
  }

  /** The sorted plan is ordered by |strides[0]| descending and is a permutation of
      its input. */
  lemma SortDescCorrect(s: seq<ExtentStrides>)
    ensures SortedDesc(SortDesc(s))
    ensures multiset(SortDesc(s)) == multiset(s) && |SortDesc(s)| == |s|
  {
    SortDescSorted(s);
    SortDescPermutes(s);
  }

  lemma {:induction false} SortDescSorted(s: seq<ExtentStrides>)
    ensures SortedDesc(SortDesc(s))
  {
    if s != [] {
      SortDescSorted(s[1..]);
      InsertSorted(s[0], SortDesc(s[1..]));
    }
  }

  lemma {:induction false} SortDescPermutes(s: seq<ExtentStrides>)
    ensures multiset(SortDesc(s)) == multiset(s) && |SortDesc(s)| == |s|
  {
    if s != [] {
      SortDescPermutes(s[1..]);
      SortDescStep(s);
      MultisetCons(s);
    }
  }

  /** Sorting a non-empty plan inserts its head into the sorted tail. */
  lemma SortDescStep(s: seq<ExtentStrides>)
    requires s != []
    ensures multiset(SortDesc(s)) == multiset(SortDesc(s[1..])) + multiset{s[0]}
    ensures |SortDesc(s)| == |SortDesc(s[1..])| + 1
  {
    assert SortDesc(s) == Insert(s[0], SortDesc(s[1..]));
  }

  lemma MultisetCons(s: seq<ExtentStrides>)
    requires s != []
    ensures multiset(s) == multiset(s[1..]) + multiset{s[0]}
  {
    assert s == [s[0]] + s[1..];
  }

  lemma SortDescArity(s: seq<ExtentStrides>, n: nat)
    requires Arity(s, n)
    ensures Arity(SortDesc(s), n)
  {
    SortDescCorrect(s);
    forall k | 0 <= k < |SortDesc(s)| ensures |SortDesc(s)[k].strides| == n {
      assert SortDesc(s)[k] in multiset(s);
    }
  }

  // ---------------------------------------------------------------------------
  // coalesce_strides

  /** The three-operand `coalesce_strides(ext, Stride1, Stride2)`: one two-operand
      descriptor per dimension, sorted by |Stride1| descending, then coalesced.  For
      rank 0 the result is empty; the code as written starts its write index at 1
      here as well, the fault `CoalesceInPlaceAsWritten` exhibits (see Findings). */
  function CoalesceStrides(ext: seq<nat>, stride1: seq<int>, stride2: seq<int>): (r: seq<ExtentStrides>)
    requires |ext| == |stride1| == |stride2|
    ensures |r| <= |ext| && Arity(r, 2)
    ensures Product(r) == Product(Descriptors2(ext, stride1, stride2))
  {
    var d := Descriptors2(ext, stride1, stride2);
    SortDescCorrect(d);
    SortDescArity(d, 2);
    CoalesceShape(SortDesc(d));
    CoalesceArity(SortDesc(d), 2);
    PermutationProduct(SortDesc(d), d);
    Coalesce(SortDesc(d))
  }

  /** `{ext[i], {Stride1[i], Stride2[i]}}` for each dimension `i`. */
  function Descriptors2(ext: seq<nat>, stride1: seq<int>, stride2: seq<int>): (d: seq<ExtentStrides>)
    requires |ext| == |stride1| == |stride2|
    ensures |d| == |ext| && Arity(d, 2)
  {
    seq(|ext|, i requires 0 <= i < |ext| => ExtentStrides(ext[i], [stride1[i], stride2[i]]))
  }

  /** The product of extents does not depend on the order of the descriptors. */
  lemma {:induction false} PermutationProduct(a: seq<ExtentStrides>, b: seq<ExtentStrides>)
    requires multiset(a) == multiset(b)
    ensures Product(a) == Product(b)
    decreases |a|
  {
    if a != [] {
      var x := a[0];
      assert x in multiset(b);
      var k :| 0 <= k < |b| && b[k] == x;
      var rest := b[..k] + b[k + 1..];
      RemoveAt(b, k);
      MultisetTail(a);
      PermutationProduct(a[1..], rest);
    }
  }

  lemma MultisetTail(a: seq<ExtentStrides>)
    requires a != []
    ensures multiset(a[1..]) == multiset(a) - multiset{a[0]}
  {
    assert a == [a[0]] + a[1..];
  }

  /** Taking the descriptor at `k` out of a plan. */
  lemma RemoveAt(b: seq<ExtentStrides>, k: nat)
    requires k < |b|
    ensures multiset(b[..k] + b[k + 1..]) == multiset(b) - multiset{b[k]}
    ensures Product(b) == b[k].extent * Product(b[..k] + b[k + 1..])
  {
    RemoveAtMultiset(b, k);
    RemoveAtProduct(b, k);
  }

  lemma RemoveAtMultiset(b: seq<ExtentStrides>, k: nat)
    requires k < |b|
    ensures multiset(b[..k] + b[k + 1..]) == multiset(b) - multiset{b[k]}
  {
    assert b == b[..k] + [b[k]] + b[k + 1..];
  }

  lemma RemoveAtProduct(b: seq<ExtentStrides>, k: nat)
    requires k < |b|
    ensures Product(b) == b[k].extent * Product(b[..k] + b[k + 1..])
  {
    var front, x, back := b[..k], b[k], b[k + 1..];
    assert b == front + ([x] + back);
    ProductAppend(front, [x] + back);
    ProductAppend(front, back);
    assert ([x] + back)[1..] == back;
    assert Product([x] + back) == x.extent * Product(back);
    MulSwap(Product(front), x.extent, Product(back));
  }

  lemma MulSwap(p: int, x: int, q: int)
    ensures p * (x * q) == x * (p * q)
  {
  }

  /** The in-place `coalesce_strides(static_vector&)`: a write index walks behind the
      read index; each entry is merged into `out[write-1]` or copied to `out[write]`;
      finally the vector is resized to `write`.  An empty vector is left empty (the
      code as written reads the capacity instead of the size and always resizes to at
      least 1; see Findings). */
  method CoalesceInPlace(v: StaticVector<ExtentStrides>)
    requires v.Valid()
    modifies v`size, v.data
    ensures v.Valid()
    ensures v.Contents() == Coalesce(old(v.Contents()))
  {
    if v.size == 0 {
      return;
    }
    ghost var input := v.Contents();
    var write := 1;
    var i := 1;
    assert v.data[..write] == [input[0]];
    while i < v.size
      invariant 1 <= write <= i <= v.size == |input|
      invariant v.data[i..v.size] == input[i..]
      invariant CoalesceFrom(v.data[..write], input[i..]) == Coalesce(input)
    {
      write := CoalesceStep(v, input, write, i);
      i := i + 1;
    }
    v.size := write;
  }

  /** One step of the in-place scan: slot `i` is merged into the last kept slot
      `write - 1` when the two loops are contiguous, and otherwise copied to slot
      `write`, which becomes the last kept slot.  The kept prefix and the unread
      suffix still coalesce to the coalesced input. */
  method CoalesceStep(v: StaticVector<ExtentStrides>, ghost input: seq<ExtentStrides>, write: nat, i: nat)
    returns (write': nat)
    requires v.Valid() && 1 <= write <= i < v.size == |input|
    requires v.data[i..v.size] == input[i..]
    requires CoalesceFrom(v.data[..write], input[i..]) == Coalesce(input)
    modifies v.data
    ensures write <= write' <= write + 1
    ensures v.data[i + 1..v.size] == input[i + 1..]
    ensures CoalesceFrom(v.data[..write'], input[i + 1..]) == Coalesce(input)
  {
    ghost var prev := v.data[..write - 1];
    var target := v.data[write - 1];
    var next := v.data[i];
    assert v.data[..write] == prev + [target];
    assert next == input[i];
    assert input[i..][1..] == input[i + 1..];
    if CanMergeWithInner(target, next) {
      v.data[write - 1] := MergeWithInner(target, next);
      write' := write;
      assert v.data[..write'] == prev + [MergeWithInner(target, next)];
    } else {
      v.data[write] := next;
      write' := write + 1;
      assert v.data[..write'] == prev + [target] + [next];
    }
  }

  /** The in-place `coalesce_strides(static_vector<extent_strides<N>, R>&)` as
      written: the scan runs over the capacity `R` rather than the size, and the write
      index starts at 1 whatever `R` is.  Called, as `extract_strides` does, on a full
      vector; `resize(write)` asserts `write <= R`, which fails (`Fail`) exactly when
      the capacity is 0. */
  method CoalesceInPlaceAsWritten(v: StaticVector<ExtentStrides>) returns (r: Outcome)
    requires v.Valid() && v.size == v.MaxSize
    modifies v`size, v.data
    ensures r.Fail? <==> v.MaxSize == 0
    ensures r.Pass? ==> v.Valid() && v.Contents() == Coalesce(old(v.Contents()))
  {
    ghost var input := v.Contents();
    var write := 1;
    var i := 1;
    if v.MaxSize > 0 {
      assert v.data[..write] == [input[0]];
    }
    while i < v.MaxSize
      invariant v.Valid() && v.size == v.MaxSize == |input|
      invariant 1 <= write <= i <= v.MaxSize || (v.MaxSize == 0 && write == i == 1)
      invariant v.MaxSize > 0 ==> v.data[i..v.size] == input[i..]
      invariant v.MaxSize > 0 ==> CoalesceFrom(v.data[..write], input[i..]) == Coalesce(input)
    {
      write := CoalesceStep(v, input, write, i);
      i := i + 1;
    }
    if write > v.MaxSize {
      return Fail(FatalError("static_vector::resize: count > MaxSize"));
    }
    v.size := write;
    return Pass;
  }

  // ---------------------------------------------------------------------------
  // extract_strides

  /** The extents and strides of a strided `mdspan` mapping. */
  datatype Mapping = Mapping(extents: seq<nat>, strides: seq<int>)
  {
    predicate WellFormed() { |extents| == |strides| }
    function Rank(): nat { |extents| }
  }

  function Firsts(pairs: seq<(nat, nat)>): (s: seq<nat>)
    ensures |s| == |pairs|
  {
    seq(|pairs|, i requires 0 <= i < |pairs| => pairs[i].0)
  }

  function Seconds(pairs: seq<(nat, nat)>): (s: seq<nat>)
    ensures |s| == |pairs|
  {
    seq(|pairs|, i requires 0 <= i < |pairs| => pairs[i].1)
  }

  predicate Distinct(s: seq<nat>)
  {
    forall i, j :: 0 <= i < j < |s| ==> s[i] != s[j]
  }

  predicate Below(s: seq<nat>, bound: nat)
  {
    forall i :: 0 <= i < |s| ==> s[i] < bound
  }

  /** The axes below `rank` that do not appear in `used`, in increasing order: the
      uncontracted legs, in the order the `ai`/`bi` loops visit them. */
  function Free(rank: nat, used: seq<nat>): (f: seq<nat>)
    ensures Below(f, rank)
  {
    if rank == 0 then [] else Free(rank - 1, used) + (if rank - 1 in used then [] else [rank - 1])
  }

  function SetBelow(used: seq<nat>, r: nat): set<nat>
  {
    set x | x in used && x < r
  }

  lemma {:induction false} FreeCountBelow(rank: nat, used: seq<nat>)
    ensures |Free(rank, used)| + |SetBelow(used, rank)| == rank
  {
    if rank == 0 {
      assert SetBelow(used, 0) == {};
    } else {
      FreeCountBelow(rank - 1, used);
      if rank - 1 in used {
        assert SetBelow(used, rank) == SetBelow(used, rank - 1) + {rank - 1};
      } else {
        assert SetBelow(used, rank) == SetBelow(used, rank - 1);
      }
    }
  }

  function Elements(s: seq<nat>): set<nat>
  {
    set x | x in s
  }

  lemma {:induction false} DistinctCard(s: seq<nat>)
    requires Distinct(s)
    ensures |Elements(s)| == |s|
  {
    if s != [] {
      var init, last := s[..|s| - 1], s[|s| - 1];
      assert Distinct(init);
      DistinctCard(init);
      assert s == init + [last];
      assert Elements(s) == Elements(init) + {last};
      forall k | 0 <= k < |init| ensures init[k] != last {
        assert init[k] == s[k];
      }
      assert last !in Elements(init);
    } else {
      assert Elements(s) == {};
    }
  }

  /** With distinct contracted axes, all below the rank, `rank - N` axes stay free. */
  lemma FreeCount(rank: nat, used: seq<nat>)
    requires Distinct(used) && Below(used, rank)
    ensures |used| <= rank && |Free(rank, used)| == rank - |used|
  {
    FreeCountBelow(rank, used);
    DistinctCard(used);
    assert SetBelow(used, rank) == Elements(used);
  }

  /** What `extract_strides` demands of its arguments: well-formed mappings, every
      contracted pair naming an axis of `A` and of `B`, no axis contracted twice
      (the M and N groups have room for exactly the remaining legs) and `C` having
      one axis per uncontracted leg. */
  predicate ExtractArgs(a: Mapping, b: Mapping, pairs: seq<(nat, nat)>, c: Mapping)
  {
    a.WellFormed() && b.WellFormed() && c.WellFormed() &&
    Distinct(Firsts(pairs)) && Below(Firsts(pairs), a.Rank()) &&
    Distinct(Seconds(pairs)) && Below(Seconds(pairs), b.Rank()) &&
    |pairs| <= a.Rank() && |pairs| <= b.Rank() &&
    c.Rank() == (a.Rank() - |pairs|) + (b.Rank() - |pairs|)
  }

  /** The K entries: `(A.extent(ai), {A.stride(ai), B.stride(bi)})` per pair. */
  function KEntries(a: Mapping, b: Mapping, pairs: seq<(nat, nat)>): (k: seq<ExtentStrides>)
    requires a.WellFormed() && b.WellFormed()
    requires Below(Firsts(pairs), a.Rank()) && Below(Seconds(pairs), b.Rank())
    ensures |k| == |pairs| && Arity(k, 2)
  {
    seq(|pairs|, i requires 0 <= i < |pairs| =>
      var (ai, bi) := (Firsts(pairs)[i], Seconds(pairs)[i]);
      ExtentStrides(a.extents[ai], [a.strides[ai], b.strides[bi]]))
  }

  /** The entries of one uncontracted group: the free legs of `x` in order, each
      paired with the next axis of `C`, starting from axis `offset` (0 for the M
      group of `A`, the size of the M group for the N group of `B`). */
  function FreeEntries(x: Mapping, used: seq<nat>, c: Mapping, offset: nat): (g: seq<ExtentStrides>)
    requires x.WellFormed() && c.WellFormed()
    requires offset + |Free(x.Rank(), used)| <= c.Rank()
    ensures |g| == |Free(x.Rank(), used)| && Arity(g, 2)
  {
    var f := Free(x.Rank(), used);
    seq(|f|, j requires 0 <= j < |f| => ExtentStrides(x.extents[f[j]], [x.strides[f[j]], c.strides[offset + j]]))
  }

  /** The M group before coalescing: the free legs of `A` against `C`'s first axes. */
  function MEntries(a: Mapping, b: Mapping, pairs: seq<(nat, nat)>, c: Mapping): (m: seq<ExtentStrides>)
    requires ExtractArgs(a, b, pairs, c)
    ensures |m| == a.Rank() - |pairs| && Arity(m, 2)
  {
    FreeCount(a.Rank(), Firsts(pairs));
    FreeCount(b.Rank(), Seconds(pairs));
    FreeEntries(a, Firsts(pairs), c, 0)
  }

  /** The N group before coalescing: the free legs of `B` against the remaining
      axes of `C`. */
  function NEntries(a: Mapping, b: Mapping, pairs: seq<(nat, nat)>, c: Mapping): (n: seq<ExtentStrides>)
    requires ExtractArgs(a, b, pairs, c)
    ensures |n| == b.Rank() - |pairs| && Arity(n, 2)
  {
    FreeCount(a.Rank(), Firsts(pairs));
    FreeCount(b.Rank(), Seconds(pairs));
    FreeEntries(b, Seconds(pairs), c, a.Rank() - |pairs|)
  }

  const ContractionMismatch := "Extent along tensor contraction dimension does not match"
  const UncontractedMismatch := "Extent along uncontracted dimension does not match"

  /** Some contracted pair joins legs of different extents. */
  predicate KMismatch(a: Mapping, b: Mapping, pairs: seq<(nat, nat)>)
    requires a.WellFormed() && b.WellFormed()
    requires Below(Firsts(pairs), a.Rank()) && Below(Seconds(pairs), b.Rank())
  {
    exists i :: 0 <= i < |pairs| && a.extents[Firsts(pairs)[i]] != b.extents[Seconds(pairs)[i]]
  }

  /** Some free leg of `x` differs in extent from the axis of `C` it is paired with. */
  predicate FreeMismatch(x: Mapping, used: seq<nat>, c: Mapping, offset: nat)
    requires x.WellFormed() && c.WellFormed()
    requires offset + |Free(x.Rank(), used)| <= c.Rank()
  {
    var f := Free(x.Rank(), used);
    exists j :: 0 <= j < |f| && x.extents[f[j]] != c.extents[offset + j]
  }

  /** The error `extract_strides` reports, if any: contraction mismatches are
      found first, since the K loop runs before the M and N loops. */
  function ExtractError(a: Mapping, b: Mapping, pairs: seq<(nat, nat)>, c: Mapping): Option<Error>
    requires ExtractArgs(a, b, pairs, c)
  {
    FreeCount(a.Rank(), Firsts(pairs));
    FreeCount(b.Rank(), Seconds(pairs));
    if KMismatch(a, b, pairs) then Some(FatalError(ContractionMismatch))
    else if FreeMismatch(a, Firsts(pairs), c, 0) || FreeMismatch(b, Seconds(pairs), c, a.Rank() - |pairs|) then
      Some(FatalError(UncontractedMismatch))
    else
      None
  }

  /** The three coalesced groups `(M, N, K)`, or the error `extract_strides`
      reports. */
  function ExtractGroups(a: Mapping, b: Mapping, pairs: seq<(nat, nat)>, c: Mapping)
    : Result<(seq<ExtentStrides>, seq<ExtentStrides>, seq<ExtentStrides>)>
    requires ExtractArgs(a, b, pairs, c)
  {
    match ExtractError(a, b, pairs, c)
    case Some(e) => Err(e)
    case None =>
      Ok((Coalesce(MEntries(a, b, pairs, c)), Coalesce(NEntries(a, b, pairs, c)), Coalesce(KEntries(a, b, pairs))))
  }

  /** The three outcomes of `ExtractGroups`, one per check of `extract_strides`. */
  lemma ExtractGroupsCases(a: Mapping, b: Mapping, pairs: seq<(nat, nat)>, c: Mapping)
    requires ExtractArgs(a, b, pairs, c)
    ensures |Free(a.Rank(), Firsts(pairs))| == a.Rank() - |pairs|
    ensures |Free(b.Rank(), Seconds(pairs))| == b.Rank() - |pairs|
    ensures KMismatch(a, b, pairs) ==> ExtractGroups(a, b, pairs, c) == Err(FatalError(ContractionMismatch))
    ensures !KMismatch(a, b, pairs) &&
            (FreeMismatch(a, Firsts(pairs), c, 0) || FreeMismatch(b, Seconds(pairs), c, a.Rank() - |pairs|)) ==>
            ExtractGroups(a, b, pairs, c) == Err(FatalError(UncontractedMismatch))
    ensures !KMismatch(a, b, pairs) &&
            !FreeMismatch(a, Firsts(pairs), c, 0) && !FreeMismatch(b, Seconds(pairs), c, a.Rank() - |pairs|) ==>
            ExtractGroups(a, b, pairs, c).Ok?
  {
    FreeCount(a.Rank(), Firsts(pairs));
    FreeCount(b.Rank(), Seconds(pairs));
  }

  /** The groups fit their `static_vector` capacities `rank(A) - N`, `rank(B) - N`
      and `N`, and each keeps the number of index combinations of its legs. */
  lemma ExtractGroupsBounds(a: Mapping, b: Mapping, pairs: seq<(nat, nat)>, c: Mapping)
    requires ExtractArgs(a, b, pairs, c)
    ensures ExtractGroups(a, b, pairs, c).Ok? ==>
      var (m, n, k) := ExtractGroups(a, b, pairs, c).value;
      |m| <= a.Rank() - |pairs| && |n| <= b.Rank() - |pairs| && |k| <= |pairs| &&
      Product(m) == Product(MEntries(a, b, pairs, c)) &&
      Product(n) == Product(NEntries(a, b, pairs, c)) &&
      Product(k) == Product(KEntries(a, b, pairs)) &&
      Arity(m, 2) && Arity(n, 2) && Arity(k, 2)
  {
    var me, ne, ke := MEntries(a, b, pairs, c), NEntries(a, b, pairs, c), KEntries(a, b, pairs);
    CoalesceShape(me);
    CoalesceShape(ne);
    CoalesceShape(ke);
    CoalesceArity(me, 2);
    CoalesceArity(ne, 2);
    CoalesceArity(ke, 2);
  }

  /** The free legs below `r1` are a prefix of the free legs below `r2`. */
  lemma {:induction false} FreePrefix(r1: nat, r2: nat, used: seq<nat>)
    requires r1 <= r2
    ensures |Free(r1, used)| <= |Free(r2, used)|
    ensures Free(r2, used)[..|Free(r1, used)|] == Free(r1, used)
    decreases r2 - r1
  {
    if r1 < r2 {
      FreePrefix(r1 + 1, r2, used);
      var f1, f2 := Free(r1, used), Free(r1 + 1, used);
      assert f2[..|f1|] == f1;
      assert Free(r2, used)[..|f1|] == Free(r2, used)[..|f2|][..|f1|];
    }
  }

  /** The K loop of `extract_strides`: checks each contracted pair, marks its legs
      in `aContracted`/`bContracted` and appends its entry to `k`. */
  method ContractedLegs(a: Mapping, b: Mapping, pairs: seq<(nat, nat)>, k: StaticVector<ExtentStrides>,
                        aContracted: array<bool>, bContracted: array<bool>) returns (ok: bool)
    requires a.WellFormed() && b.WellFormed()
    requires Below(Firsts(pairs), a.Rank()) && Below(Seconds(pairs), b.Rank())
    requires k.Valid() && k.Contents() == [] && k.MaxSize == |pairs|
    requires aContracted.Length == a.Rank() && bContracted.Length == b.Rank() && aContracted != bContracted
    requires forall x :: 0 <= x < a.Rank() ==> !aContracted[x]
    requires forall x :: 0 <= x < b.Rank() ==> !bContracted[x]
    modifies k`size, k.data, aContracted, bContracted
    ensures ok <==> !KMismatch(a, b, pairs)
    ensures ok ==> k.Valid() && k.Contents() == KEntries(a, b, pairs)
    ensures ok ==> forall x :: 0 <= x < a.Rank() ==> (aContracted[x] <==> x in Firsts(pairs))
    ensures ok ==> forall x :: 0 <= x < b.Rank() ==> (bContracted[x] <==> x in Seconds(pairs))
  {
    var used, usedB := Firsts(pairs), Seconds(pairs);
    var i := 0;
    while i < |pairs|
      invariant 0 <= i <= |pairs|
      invariant k.Valid() && k.Contents() == KEntries(a, b, pairs)[..i]
      invariant forall j :: 0 <= j < i ==> a.extents[used[j]] == b.extents[usedB[j]]
      invariant forall x :: 0 <= x < a.Rank() ==> (aContracted[x] <==> x in used[..i])
      invariant forall x :: 0 <= x < b.Rank() ==> (bContracted[x] <==> x in usedB[..i])
    {
      var (ai, bi) := pairs[i];
      assert ai == used[i] && bi == usedB[i];
      if a.extents[ai] != b.extents[bi] {
        return false;
      }
      RecordPair(a, b, pairs, i, k, aContracted, bContracted);
      i := i + 1;
    }
    assert used[..|pairs|] == used && usedB[..|pairs|] == usedB;
    return true;
  }

  /** One matching contracted pair `i` of the K loop: both legs are marked and
      the pair's entry is appended to `k`. */
  method RecordPair(a: Mapping, b: Mapping, pairs: seq<(nat, nat)>, i: nat, k: StaticVector<ExtentStrides>,
                    aContracted: array<bool>, bContracted: array<bool>)
    requires a.WellFormed() && b.WellFormed()
    requires Below(Firsts(pairs), a.Rank()) && Below(Seconds(pairs), b.Rank())
    requires i < |pairs| && k.Valid() && k.Contents() == KEntries(a, b, pairs)[..i] && k.MaxSize == |pairs|
    requires aContracted.Length == a.Rank() && bContracted.Length == b.Rank() && aContracted != bContracted
    requires forall x :: 0 <= x < a.Rank() ==> (aContracted[x] <==> x in Firsts(pairs)[..i])
    requires forall x :: 0 <= x < b.Rank() ==> (bContracted[x] <==> x in Seconds(pairs)[..i])
    modifies k`size, k.data, aContracted, bContracted
    ensures k.Valid() && k.Contents() == KEntries(a, b, pairs)[..i + 1]
    ensures forall x :: 0 <= x < a.Rank() ==> (aContracted[x] <==> x in Firsts(pairs)[..i + 1])
    ensures forall x :: 0 <= x < b.Rank() ==> (bContracted[x] <==> x in Seconds(pairs)[..i + 1])
  {
    var used, usedB := Firsts(pairs), Seconds(pairs);
    var (ai, bi) := pairs[i];
    assert ai == used[i] && bi == usedB[i];
    ghost var entries := KEntries(a, b, pairs);
    assert entries[..i + 1] == entries[..i] + [entries[i]];
    aContracted[ai] := true;
    bContracted[bi] := true;
    k.PushBack(ExtentStrides(a.extents[ai], [a.strides[ai], b.strides[bi]]));
    assert used[..i + 1] == used[..i] + [ai];
    assert usedB[..i + 1] == usedB[..i] + [bi];
  }

  /** The M loop (for `A`) and the N loop (for `B`) of `extract_strides`: each leg
      of `x` not marked in `contracted` is checked against the next axis of `C`,
      from axis `offset` on, and its entry appended to `g`. */
  method UncontractedLegs(x: Mapping, used: seq<nat>, contracted: array<bool>, c: Mapping, offset: nat,
                          g: StaticVector<ExtentStrides>) returns (ok: bool)
    requires x.WellFormed() && c.WellFormed()
    requires contracted.Length == x.Rank()
    requires forall y :: 0 <= y < x.Rank() ==> (contracted[y] <==> y in used)
    requires offset + |Free(x.Rank(), used)| <= c.Rank()
    requires g.Valid() && g.Contents() == [] && |Free(x.Rank(), used)| <= g.MaxSize
    modifies g`size, g.data
    ensures ok <==> !FreeMismatch(x, used, c, offset)
    ensures ok ==> g.Valid() && g.Contents() == FreeEntries(x, used, c, offset)
  {
    ghost var f := Free(x.Rank(), used);
    var ci := offset;
    var xi := 0;
    while xi < x.Rank()
      invariant 0 <= xi <= x.Rank()
      invariant ci - offset == |Free(xi, used)| <= |f|
      invariant g.Valid() && g.Contents() == FreeEntries(x, used, c, offset)[..ci - offset]
      invariant forall j :: 0 <= j < ci - offset ==> x.extents[f[j]] == c.extents[offset + j]
    {
      FreeNext(xi, x.Rank(), used);
      if !contracted[xi] {
        ok := FreeLeg(x, used, c, offset, g, xi, ci);
        if !ok {
          return;
        }
        ci := ci + 1;
      }
      xi := xi + 1;
    }
    return true;
  }

  /** One free leg `xi` of the M or N loop, the `ci`-th axis of `C`: a mismatch
      of extents fails, otherwise the leg's entry is appended to `g`. */
  method FreeLeg(x: Mapping, used: seq<nat>, c: Mapping, offset: nat, g: StaticVector<ExtentStrides>,
                 xi: nat, ci: nat) returns (ok: bool)
    requires x.WellFormed() && c.WellFormed()
    requires offset + |Free(x.Rank(), used)| <= c.Rank()
    requires offset <= ci < offset + |Free(x.Rank(), used)| && Free(x.Rank(), used)[ci - offset] == xi
    requires g.Valid() && g.Contents() == FreeEntries(x, used, c, offset)[..ci - offset]
    requires |Free(x.Rank(), used)| <= g.MaxSize
    modifies g`size, g.data
    ensures !ok ==> FreeMismatch(x, used, c, offset)
    ensures ok ==> x.extents[xi] == c.extents[ci]
    ensures ok ==> g.Valid() && g.Contents() == FreeEntries(x, used, c, offset)[..ci - offset + 1]
  {
    ghost var entries := FreeEntries(x, used, c, offset);
    if x.extents[xi] != c.extents[ci] {
      return false;
    }
    assert entries[..ci - offset + 1] == entries[..ci - offset] + [entries[ci - offset]];
    g.PushBack(ExtentStrides(x.extents[xi], [x.strides[xi], c.strides[ci]]));
    return true;
  }

  /** Walking leg `xi`: the free legs below `xi + 1` still fit in those below
      `rank`, and a free `xi` is the next of them. */
  lemma FreeNext(xi: nat, rank: nat, used: seq<nat>)
    requires xi < rank
    ensures Free(xi + 1, used) == Free(xi, used) + (if xi in used then [] else [xi])
    ensures |Free(xi + 1, used)| <= |Free(rank, used)|
    ensures xi !in used ==> Free(rank, used)[|Free(xi, used)|] == xi
  {
    FreePrefix(xi + 1, rank, used);
  }

  /** `extract_strides`: the K loop checks and records each contracted pair, the
      M and N loops walk the uncontracted legs of `A` and then of `B` against
      consecutive axes of `C`, and the three groups are coalesced in place.  The
      groups live in `static_vector`s of capacity `rank(A) - N`, `rank(B) - N` and
      `N`.  The in-place coalescing used is the one that leaves an empty group
      empty (see Findings). */
  method ExtractStrides(a: Mapping, b: Mapping, pairs: seq<(nat, nat)>, c: Mapping)
    returns (r: Result<(StaticVector<ExtentStrides>, StaticVector<ExtentStrides>, StaticVector<ExtentStrides>)>)
    requires ExtractArgs(a, b, pairs, c)
    ensures r.Err? <==> ExtractGroups(a, b, pairs, c).Err?
    ensures r.Err? ==> ExtractGroups(a, b, pairs, c) == Err(r.error)
    ensures r.Ok? ==>
      var (m, n, k) := r.value;
      m.Valid() && n.Valid() && k.Valid() &&
      m.MaxSize == a.Rank() - |pairs| && n.MaxSize == b.Rank() - |pairs| && k.MaxSize == |pairs| &&
      (m.Contents(), n.Contents(), k.Contents()) == ExtractGroups(a, b, pairs, c).value
  {
    var legs := CollectLegs(a, b, pairs, c);
    if legs.Err? {
      return Err(legs.error);
    }
    var mGroup, nGroup, kGroup := legs.value.0, legs.value.1, legs.value.2;
    ghost var me, ne, ke := MEntries(a, b, pairs, c), NEntries(a, b, pairs, c), KEntries(a, b, pairs);
    assert ExtractGroups(a, b, pairs, c) == Ok((Coalesce(me), Coalesce(ne), Coalesce(ke)));
    CoalesceInPlace(mGroup);
    CoalesceInPlace(nGroup);
    CoalesceInPlace(kGroup);
    return Ok((mGroup, nGroup, kGroup));
  }

  /** The three loops of `extract_strides`, before coalescing: the groups hold
      one entry per contracted pair and per free leg, in leg order. */
  method CollectLegs(a: Mapping, b: Mapping, pairs: seq<(nat, nat)>, c: Mapping)
    returns (r: Result<(StaticVector<ExtentStrides>, StaticVector<ExtentStrides>, StaticVector<ExtentStrides>)>)
    requires ExtractArgs(a, b, pairs, c)
    ensures r.Err? <==> ExtractGroups(a, b, pairs, c).Err?
    ensures r.Err? ==> ExtractGroups(a, b, pairs, c) == Err(r.error)
    ensures r.Ok? ==>
      var (m, n, k) := r.value;
      m.Valid() && n.Valid() && k.Valid() &&
      m.MaxSize == a.Rank() - |pairs| && n.MaxSize == b.Rank() - |pairs| && k.MaxSize == |pairs| &&
      fresh(m) && fresh(m.data) && fresh(n) && fresh(n.data) && fresh(k) && fresh(k.data) &&
      m != n && n != k && m != k && m.data != n.data && n.data != k.data && m.data != k.data &&
      m.Contents() == MEntries(a, b, pairs, c) && n.Contents() == NEntries(a, b, pairs, c) &&
      k.Contents() == KEntries(a, b, pairs)
  {
    FreeCount(a.Rank(), Firsts(pairs));
    FreeCount(b.Rank(), Seconds(pairs));
    var mGroup := new StaticVector<ExtentStrides>(a.Rank() - |pairs|);
    var nGroup := new StaticVector<ExtentStrides>(b.Rank() - |pairs|);
    var kGroup := new StaticVector<ExtentStrides>(|pairs|);
    var err := FillGroups(a, b, pairs, c, mGroup, nGroup, kGroup);
    if err.Some? {
      return Err(err.value);
    }
    return Ok((mGroup, nGroup, kGroup));
  }

  /** The K loop, then the M and N loops, into three empty groups. */
  method FillGroups(a: Mapping, b: Mapping, pairs: seq<(nat, nat)>, c: Mapping,
                    mGroup: StaticVector<ExtentStrides>, nGroup: StaticVector<ExtentStrides>,
                    kGroup: StaticVector<ExtentStrides>) returns (err: Option<Error>)
    requires ExtractArgs(a, b, pairs, c)
    requires mGroup.Valid() && nGroup.Valid() && kGroup.Valid()
    requires mGroup.Contents() == [] && nGroup.Contents() == [] && kGroup.Contents() == []
    requires mGroup.MaxSize == a.Rank() - |pairs| && nGroup.MaxSize == b.Rank() - |pairs| && kGroup.MaxSize == |pairs|
    requires mGroup != nGroup && nGroup != kGroup && mGroup != kGroup
    requires mGroup.data != nGroup.data && nGroup.data != kGroup.data && mGroup.data != kGroup.data
    modifies mGroup`size, mGroup.data, nGroup`size, nGroup.data, kGroup`size, kGroup.data
    ensures err == ExtractError(a, b, pairs, c)
    ensures err.None? ==>
      mGroup.Valid() && nGroup.Valid() && kGroup.Valid() &&
      mGroup.Contents() == MEntries(a, b, pairs, c) && nGroup.Contents() == NEntries(a, b, pairs, c) &&
      kGroup.Contents() == KEntries(a, b, pairs)
  {
    FreeCount(a.Rank(), Firsts(pairs));
    FreeCount(b.Rank(), Seconds(pairs));
    var aContracted := new bool[a.Rank()](_ => false);
    var bContracted := new bool[b.Rank()](_ => false);
    var ok := ContractedLegs(a, b, pairs, kGroup, aContracted, bContracted);
    if !ok {
      return Some(FatalError(ContractionMismatch));
    }
    label AfterK:
    ok := UncontractedLegs(a, Firsts(pairs), aContracted, c, 0, mGroup);
    if !ok {
      return Some(FatalError(UncontractedMismatch));
    }
    label AfterM:
    ok := UncontractedLegs(b, Seconds(pairs), bContracted, c, a.Rank() - |pairs|, nGroup);
    if !ok {
      return Some(FatalError(UncontractedMismatch));
    }
    assert unchanged@AfterK(kGroup, kGroup.data);
    assert unchanged@AfterM(mGroup, mGroup.data);
    return None;
  }

  /** Contracting a 2 x 3 x 4 tensor with a 4 x 5 x 6 tensor over (2, 0), all row
      major, into a 2 x 3 x 5 x 6 tensor: one entry per group, M = (6; 4, 30),
      N = (30; 1, 1), K = (4; 1, 30). */
  lemma ExtractGroupsExample()
    ensures ExtractArgs(ExampleA, ExampleB, [(2, 0)], ExampleC)
    ensures ExtractGroups(ExampleA, ExampleB, [(2, 0)], ExampleC)
         == Ok(([ExtentStrides(6, [4, 30])], [ExtentStrides(30, [1, 1])], [ExtentStrides(4, [1, 30])]))
  {
    var pairs := [(2, 0)];
    ExampleFree();
    assert ExtractArgs(ExampleA, ExampleB, pairs, ExampleC);
    var me := MEntries(ExampleA, ExampleB, pairs, ExampleC);
    var ne := NEntries(ExampleA, ExampleB, pairs, ExampleC);
    ExampleEntries(me, ne);
    ExampleNoMismatch();
    ExampleCoalesce(me, ne);
    assert !KMismatch(ExampleA, ExampleB, pairs);
  }

  const ExampleA := Mapping([2, 3, 4], [12, 4, 1])
  const ExampleB := Mapping([4, 5, 6], [30, 6, 1])
  const ExampleC := Mapping([2, 3, 5, 6], [90, 30, 6, 1])

  lemma ExampleEntries(me: seq<ExtentStrides>, ne: seq<ExtentStrides>)
    requires ExtractArgs(ExampleA, ExampleB, [(2, 0)], ExampleC)
    requires Firsts([(2, 0)]) == [2] && Seconds([(2, 0)]) == [0]
    requires Free(3, [2]) == [0, 1] && Free(3, [0]) == [1, 2]
    requires me == MEntries(ExampleA, ExampleB, [(2, 0)], ExampleC)
    requires ne == NEntries(ExampleA, ExampleB, [(2, 0)], ExampleC)
    ensures me == [ExtentStrides(2, [12, 90]), ExtentStrides(3, [4, 30])]
    ensures ne == [ExtentStrides(5, [6, 6]), ExtentStrides(6, [1, 1])]
    ensures KEntries(ExampleA, ExampleB, [(2, 0)]) == [ExtentStrides(4, [1, 30])]
  {
  }

  lemma ExampleNoMismatch()
    requires Free(3, [2]) == [0, 1] && Free(3, [0]) == [1, 2]
    ensures !FreeMismatch(ExampleA, [2], ExampleC, 0) && !FreeMismatch(ExampleB, [0], ExampleC, 2)
  {
  }

  lemma ExampleFree()
    ensures Firsts([(2, 0)]) == [2] && Seconds([(2, 0)]) == [0]
    ensures Free(3, [2]) == [0, 1] && Free(3, [0]) == [1, 2]
  {
    assert Free(1, [2]) == [0];
    assert Free(2, [2]) == [0, 1];
    assert Free(1, [0]) == [];
    assert Free(2, [0]) == [1];
  }

  lemma ExampleCoalesce(me: seq<ExtentStrides>, ne: seq<ExtentStrides>)
    requires me == [ExtentStrides(2, [12, 90]), ExtentStrides(3, [4, 30])]
    requires ne == [ExtentStrides(5, [6, 6]), ExtentStrides(6, [1, 1])]
    ensures Coalesce(me) == [ExtentStrides(6, [4, 30])]
    ensures Coalesce(ne) == [ExtentStrides(30, [1, 1])]
    ensures Coalesce([ExtentStrides(4, [1, 30])]) == [ExtentStrides(4, [1, 30])]
  {
    assert CanMergeWithInner(me[0], me[1]);
    assert CanMergeWithInner(ne[0], ne[1]);
    assert me[1..] == [me[1]] && ne[1..] == [ne[1]];
    assert CoalesceFrom([me[0]], [me[1]]) == CoalesceFrom([MergeWithInner(me[0], me[1])], []);
    assert CoalesceFrom([ne[0]], [ne[1]]) == CoalesceFrom([MergeWithInner(ne[0], ne[1])], []);
  }
}
