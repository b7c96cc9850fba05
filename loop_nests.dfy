/** The meaning of an iteration plan: the nest of loops it stands for, written as
    the sequence of offset vectors the innermost loop body sees.

    `Visits(p, b)` runs `p[0]` as the outermost loop and `p[|p| - 1]` as the
    innermost one, starting from the base offsets `b` (one per operand).  Iteration
    `i` of a loop with strides `s` adds `i * s[k]` to the offset of operand `k`.
    The lemmas below justify each step of the plan builders: merging contiguous
    loops keeps the visits, reordering loops and running a loop backwards keep the
    multiset of visits. */
module LoopNests {
  import opened Concats
  import opened Strides

  /** The base `b` moved `i` steps along the strides `s`. */
  function Shift(b: seq<int>, s: seq<int>, i: int): (r: seq<int>)
    ensures |r| == |b|
  {
    seq(|b|, k requires 0 <= k < |b| => b[k] + i * (if k < |s| then s[k] else 0))
  }

  function Visits(p: seq<ExtentStrides>, b: seq<int>): seq<seq<int>>
    decreases |p|, 1
  {
    if p == [] then [b] else Concat(Loop(p, b), p[0].extent)
  }

  /** The body of the outermost loop of `p`, as a function of its index. */
  function Loop(p: seq<ExtentStrides>, b: seq<int>): nat -> seq<seq<int>>
    requires p != []
    decreases |p|, 0
  {
    (i: nat) => Visits(p[1..], Shift(b, p[0].strides, i))
  }

  /** The loop nest runs its body once per index combination. */
  lemma {:induction false} VisitsLength(p: seq<ExtentStrides>, b: seq<int>)
    ensures |Visits(p, b)| == Product(p)
    decreases |p|
  {
    if p != [] {
      forall i: nat | i < p[0].extent ensures |Loop(p, b)(i)| == Product(p[1..]) {
        VisitsLength(p[1..], Shift(b, p[0].strides, i));
      }
      ConcatUniformLength(Loop(p, b), p[0].extent, Product(p[1..]));
    }
  }

  /** Every visit carries one offset per operand. */
  lemma {:induction false} VisitsWidth(p: seq<ExtentStrides>, b: seq<int>)
    ensures forall v :: v in Visits(p, b) ==> |v| == |b|
    decreases |p|
  {
    if p != [] {
      forall v | v in Visits(p, b) ensures |v| == |b| {
        ConcatMember(Loop(p, b), p[0].extent, v);
        var i :| 0 <= i < p[0].extent && v in Loop(p, b)(i);
        VisitsWidth(p[1..], Shift(b, p[0].strides, i));
      }
    }
  }

  /** A loop with extent 0 anywhere in the nest means no visits at all. */
  lemma {:induction false} VisitsOfZeroExtent(p: seq<ExtentStrides>, b: seq<int>, k: nat)
    requires k < |p| && p[k].extent == 0
    ensures Visits(p, b) == []
    decreases |p|
  {
    if k == 0 {
    } else {
      forall i: nat | i < p[0].extent ensures Loop(p, b)(i) == [] {
        VisitsOfZeroExtent(p[1..], Shift(b, p[0].strides, i), k - 1);
      }
      ConcatOfEmpty(Loop(p, b), p[0].extent);
    }
  }

  // ---------------------------------------------------------------------------
  // Merging contiguous loops

  lemma ShiftMerge(outer: ExtentStrides, inner: ExtentStrides, b: seq<int>, i: int, j: int)
    requires CanMergeWithInner(outer, inner)
    ensures Shift(Shift(b, outer.strides, i), inner.strides, j) == Shift(b, inner.strides, i * inner.extent + j)
  {
    forall k | 0 <= k < |b|
      ensures Shift(Shift(b, outer.strides, i), inner.strides, j)[k] == Shift(b, inner.strides, i * inner.extent + j)[k]
    {
      if k < |inner.strides| {
        var s := inner.strides[k];
        assert outer.strides[k] == s * inner.extent;
        assert i * (s * inner.extent) + j * s == (i * inner.extent + j) * s by {
          assert i * (s * inner.extent) == (i * inner.extent) * s;
        }
      }
    }
  }

  /** The merged loop (`merge_with_inner`) visits the same offsets, in the same
      order, as the outer loop running the inner loop. */
  lemma MergeVisits(outer: ExtentStrides, inner: ExtentStrides, rest: seq<ExtentStrides>, b: seq<int>)
    requires CanMergeWithInner(outer, inner)
    ensures Visits([outer, inner] + rest, b) == Visits([MergeWithInner(outer, inner)] + rest, b)
  {
    var m := inner.extent;
    var merged := MergeWithInner(outer, inner);
    var g := Loop([merged] + rest, b);
    var nested := [outer, inner] + rest;
    forall i: nat | i < outer.extent ensures Loop(nested, b)(i) == Blocks(g, m)(i) {
      var b1 := Shift(b, outer.strides, i);
      assert nested[1..] == [inner] + rest;
      forall j: nat | j < m ensures Loop([inner] + rest, b1)(j) == From(g, i * m)(j) {
        ShiftMerge(outer, inner, b, i, j);
        assert ([inner] + rest)[1..] == rest && ([merged] + rest)[1..] == rest;
      }
      ConcatCongruent(Loop([inner] + rest, b1), From(g, i * m), m);
    }
    ConcatCongruent(Loop(nested, b), Blocks(g, m), outer.extent);
    ConcatNested(g, outer.extent, m);
  }

  /** Replacing a suffix of the nest by one with the same visits from every base. */
  lemma {:induction false} VisitsAppendCongruent(p: seq<ExtentStrides>, q: seq<ExtentStrides>, q': seq<ExtentStrides>, b: seq<int>)
    requires forall c :: Visits(q, c) == Visits(q', c)
    ensures Visits(p + q, b) == Visits(p + q', b)
    decreases |p|
  {
    if p == [] {
      assert p + q == q && p + q' == q';
    } else {
      assert (p + q)[0] == p[0] && (p + q')[0] == p[0];
      assert (p + q)[1..] == p[1..] + q && (p + q')[1..] == p[1..] + q';
      forall i: nat | i < p[0].extent ensures Loop(p + q, b)(i) == Loop(p + q', b)(i) {
        VisitsAppendCongruent(p[1..], q, q', Shift(b, p[0].strides, i));
      }
      ConcatCongruent(Loop(p + q, b), Loop(p + q', b), p[0].extent);
    }
  }

  /** The coalescing scan keeps the visits exactly. */
  lemma {:induction false} CoalesceFromVisits(done: seq<ExtentStrides>, rest: seq<ExtentStrides>, b: seq<int>)
    requires done != []
    ensures Visits(CoalesceFrom(done, rest), b) == Visits(done + rest, b)
    decreases |rest|
  {
    if rest != [] {
      var last, front, x := done[|done| - 1], done[..|done| - 1], rest[0];
      assert done == front + [last];
      assert rest == [x] + rest[1..];
      if CanMergeWithInner(last, x) {
        var m := MergeWithInner(last, x);
        assert CoalesceFrom(done, rest) == CoalesceFrom(front + [m], rest[1..]);
        CoalesceFromVisits(front + [m], rest[1..], b);
        forall c ensures Visits([last, x] + rest[1..], c) == Visits([m] + rest[1..], c) {
          MergeVisits(last, x, rest[1..], c);
        }
        VisitsAppendCongruent(front, [last, x] + rest[1..], [m] + rest[1..], b);
        assert done + rest == front + ([last, x] + rest[1..]);
        assert front + [m] + rest[1..] == front + ([m] + rest[1..]);
      } else {
        assert CoalesceFrom(done, rest) == CoalesceFrom(done + [x], rest[1..]);
        CoalesceFromVisits(done + [x], rest[1..], b);
        assert done + [x] + rest[1..] == done + rest;
      }
    } else {
      assert done + rest == done;
    }
  }

  /** Coalescing a plan keeps its visits exactly. */
  lemma CoalesceVisits(s: seq<ExtentStrides>, b: seq<int>)
    ensures Visits(Coalesce(s), b) == Visits(s, b)
  {
    if s != [] {
      CoalesceFromVisits([s[0]], s[1..], b);
      assert [s[0]] + s[1..] == s;
    }
  }

  // ---------------------------------------------------------------------------
  // Reordering loops

  lemma ShiftSwap(b: seq<int>, s: seq<int>, i: int, t: seq<int>, j: int)
    ensures Shift(Shift(b, s, i), t, j) == Shift(Shift(b, t, j), s, i)
  {
  }

  /** Multiset version of `VisitsAppendCongruent`. */
  lemma {:induction false} VisitsAppendCongruentMultiset(p: seq<ExtentStrides>, q: seq<ExtentStrides>, q': seq<ExtentStrides>, b: seq<int>)
    requires forall c :: multiset(Visits(q, c)) == multiset(Visits(q', c))
    ensures multiset(Visits(p + q, b)) == multiset(Visits(p + q', b))
    decreases |p|
  {
    if p == [] {
      assert p + q == q && p + q' == q';
    } else {
      assert (p + q)[0] == p[0] && (p + q')[0] == p[0];
      assert (p + q)[1..] == p[1..] + q && (p + q')[1..] == p[1..] + q';
      forall i: nat | i < p[0].extent ensures multiset(Loop(p + q, b)(i)) == multiset(Loop(p + q', b)(i)) {
        VisitsAppendCongruentMultiset(p[1..], q, q', Shift(b, p[0].strides, i));
      }
      ConcatCongruentMultiset(Loop(p + q, b), Loop(p + q', b), p[0].extent);
    }
  }

  /** The two-index body of the loops `x` and `y` around `rest`. */
  function Body(x: ExtentStrides, y: ExtentStrides, rest: seq<ExtentStrides>, b: seq<int>): (nat, nat) -> seq<seq<int>>
  {
    (i: nat, j: nat) => Visits(rest, Shift(Shift(b, x.strides, i), y.strides, j))
  }

  /** Interchanging two adjacent outer loops keeps the multiset of visits. */
  lemma SwapVisits(x: ExtentStrides, y: ExtentStrides, rest: seq<ExtentStrides>, b: seq<int>)
    ensures multiset(Visits([x, y] + rest, b)) == multiset(Visits([y, x] + rest, b))
  {
    var g := Body(x, y, rest, b);
    var xy, yx := [x, y] + rest, [y, x] + rest;
    assert xy[1..] == [y] + rest && yx[1..] == [x] + rest;
    assert ([y] + rest)[1..] == rest && ([x] + rest)[1..] == rest;
    forall i: nat | i < x.extent ensures Loop(xy, b)(i) == Row(g, y.extent)(i) {
      forall j: nat | j < y.extent ensures Loop([y] + rest, Shift(b, x.strides, i))(j) == RowAt(g, i)(j) {
      }
      ConcatCongruent(Loop([y] + rest, Shift(b, x.strides, i)), RowAt(g, i), y.extent);
    }
    ConcatCongruent(Loop(xy, b), Row(g, y.extent), x.extent);
    forall j: nat | j < y.extent ensures Loop(yx, b)(j) == Column(g, x.extent)(j) {
      forall i: nat | i < x.extent ensures Loop([x] + rest, Shift(b, y.strides, j))(i) == ColumnAt(g, j)(i) {
        ShiftSwap(b, x.strides, i, y.strides, j);
      }
      ConcatCongruent(Loop([x] + rest, Shift(b, y.strides, j)), ColumnAt(g, j), x.extent);
    }
    ConcatCongruent(Loop(yx, b), Column(g, x.extent), y.extent);
    ConcatSwapMultiset(g, x.extent, y.extent);
  }

  /** Inserting a loop at its sorted place instead of outermost keeps the multiset
      of visits. */
  lemma {:induction false} InsertVisits(x: ExtentStrides, s: seq<ExtentStrides>, b: seq<int>)
    ensures multiset(Visits(Insert(x, s), b)) == multiset(Visits([x] + s, b))
    decreases |s|
  {
    if s != [] && AbsStride0(x) < AbsStride0(s[0]) {
      var t := s[1..];
      forall c ensures multiset(Visits(Insert(x, t), c)) == multiset(Visits([x] + t, c)) {
        InsertVisits(x, t, c);
      }
      VisitsAppendCongruentMultiset([s[0]], Insert(x, t), [x] + t, b);
      SwapVisits(s[0], x, t, b);
      assert [s[0]] + ([x] + t) == [s[0], x] + t;
      assert [x] + s == [x, s[0]] + t;
    }
  }

  /** Sorting the loops keeps the multiset of visits. */
  lemma {:induction false} SortVisits(s: seq<ExtentStrides>, b: seq<int>)
    ensures multiset(Visits(SortDesc(s), b)) == multiset(Visits(s, b))
    decreases |s|
  {
    if s != [] {
      var t := s[1..];
      InsertVisits(s[0], SortDesc(t), b);
      forall c ensures multiset(Visits(SortDesc(t), c)) == multiset(Visits(t, c)) {
        SortVisits(t, c);
      }
      VisitsAppendCongruentMultiset([s[0]], SortDesc(t), t, b);
      assert [s[0]] + t == s;
    }
  }

  // ---------------------------------------------------------------------------
  // Running loops backwards

  function Negate(s: seq<int>): (r: seq<int>)
    ensures |r| == |s|
  {
    seq(|s|, k requires 0 <= k < |s| => -s[k])
  }

  /** Pointwise sum of two offset vectors. */
  function Add(b: seq<int>, d: seq<int>): (r: seq<int>)
    requires |b| == |d|
    ensures |r| == |b|
  {
    seq(|b|, k requires 0 <= k < |b| => b[k] + d[k])
  }

  /** A loop is flipped when the stride of operand 0 is negative. */
  predicate Flips(x: ExtentStrides)
  {
    |x.strides| > 0 && x.strides[0] < 0
  }

  /** The loop run backwards: all its strides negated. */
  function Flip(x: ExtentStrides): (y: ExtentStrides)
    ensures y.extent == x.extent && |y.strides| == |x.strides|
  {
    ExtentStrides(x.extent, Negate(x.strides))
  }

  lemma ShiftFlip(b: seq<int>, s: seq<int>, e: int, i: int)
    ensures Shift(Shift(b, s, e - 1), Negate(s), i) == Shift(b, s, e - 1 - i)
  {
    var back, direct := Shift(Shift(b, s, e - 1), Negate(s), i), Shift(b, s, e - 1 - i);
    forall k | 0 <= k < |b| ensures back[k] == direct[k] {
      if k < |s| {
        assert (e - 1) * s[k] + i * -s[k] == (e - 1 - i) * s[k];
      }
    }
  }

  /** Running the outermost loop backwards, from the base moved to its last
      iteration, keeps the multiset of visits. */
  lemma FlipFrontVisits(x: ExtentStrides, rest: seq<ExtentStrides>, b: seq<int>)
    ensures multiset(Visits([x] + rest, b)) == multiset(Visits([Flip(x)] + rest, Shift(b, x.strides, x.extent - 1)))
  {
    var e := x.extent;
    var p, q := [x] + rest, [Flip(x)] + rest;
    var b' := Shift(b, x.strides, x.extent - 1);
    assert p[1..] == rest && q[1..] == rest;
    ConcatReverseMultiset(Loop(p, b), e);
    forall i: nat | i < e ensures Backwards(Loop(p, b), e)(i) == Loop(q, b')(i) {
      FlipFrontStep(x, rest, b, i);
    }
    ConcatCongruent(Backwards(Loop(p, b), e), Loop(q, b'), e);
  }

  /** Iteration `i` of the flipped loop is iteration `extent - 1 - i` of the original. */
  lemma FlipFrontStep(x: ExtentStrides, rest: seq<ExtentStrides>, b: seq<int>, i: nat)
    requires i < x.extent
    ensures Backwards(Loop([x] + rest, b), x.extent)(i)
         == Loop([Flip(x)] + rest, Shift(b, x.strides, x.extent - 1))(i)
  {
    var e := x.extent;
    var p, q := [x] + rest, [Flip(x)] + rest;
    var b' := Shift(b, x.strides, e - 1);
    assert p[1..] == rest && q[1..] == rest && p[0] == x && q[0] == Flip(x);
    ShiftFlip(b, x.strides, e, i);
    assert Backwards(Loop(p, b), e)(i) == Loop(p, b)(e - 1 - i) == Visits(rest, Shift(b, x.strides, e - 1 - i));
    assert Loop(q, b')(i) == Visits(rest, Shift(b', Negate(x.strides), i));
  }

  /** Each loop with a negative operand-0 stride flipped. */
  function FlipAll(p: seq<ExtentStrides>): (r: seq<ExtentStrides>)
    ensures |r| == |p|
  {
    seq(|p|, k requires 0 <= k < |p| => if Flips(p[k]) then Flip(p[k]) else p[k])
  }

  function Zeros(n: nat): (z: seq<int>)
    ensures |z| == n
  {
    seq(n, _ => 0)
  }

  /** The offset correction collected by the flips: for each flipped loop, its
      strides times `extent - 1`, accumulated in loop order. */
  function FlipOffset(p: seq<ExtentStrides>, n: nat): (d: seq<int>)
    ensures |d| == n
  {
    if p == [] then Zeros(n)
    else
      var x := p[|p| - 1];
      var d := FlipOffset(p[..|p| - 1], n);
      if Flips(x) then Shift(d, x.strides, x.extent - 1) else d
  }

  /** An offset advanced once more along its stride. */
  lemma NextOffset(x: int, i: int, st: int, y: int)
    requires y == x + i * st
    ensures y + st == x + (i + 1) * st
  {
  }

  lemma ShiftAdd(b: seq<int>, d: seq<int>, s: seq<int>, i: int)
    requires |b| == |d|
    ensures Shift(Add(b, d), s, i) == Add(Shift(b, s, i), d) == Add(b, Shift(d, s, i))
  {
  }

  /** The offset correction seen from the outermost loop. */
  lemma {:induction false} FlipOffsetFront(p: seq<ExtentStrides>, n: nat)
    requires p != []
    ensures FlipOffset(p, n)
         == if Flips(p[0]) then Shift(FlipOffset(p[1..], n), p[0].strides, p[0].extent - 1) else FlipOffset(p[1..], n)
    decreases |p|
  {
    if |p| > 1 {
      var init := p[..|p| - 1];
      assert init[0] == p[0];
      assert init[1..] == p[1..][..|p[1..]| - 1];
      FlipOffsetFront(init, n);
      var x, y := p[0], p[|p| - 1];
      var d := FlipOffset(init[1..], n);
      assert p[1..][|p[1..]| - 1] == y;
      assert FlipOffset(p[1..], n) == if Flips(y) then Shift(d, y.strides, y.extent - 1) else d;
      assert FlipOffset(p, n) == if Flips(y) then Shift(FlipOffset(init, n), y.strides, y.extent - 1) else FlipOffset(init, n);
      ShiftSwap(d, x.strides, x.extent - 1, y.strides, y.extent - 1);
    } else {
      assert p[..|p| - 1] == [] && p[1..] == [];
    }
  }

  /** Flipping every loop with a negative operand-0 stride, and moving the base by
      the collected offset correction, keeps the multiset of visits. */
  lemma {:induction false} FlipAllVisits(p: seq<ExtentStrides>, b: seq<int>)
    ensures multiset(Visits(p, b)) == multiset(Visits(FlipAll(p), Add(b, FlipOffset(p, |b|))))
    decreases |p|
  {
    if p == [] {
      assert Add(b, Zeros(|b|)) == b;
    } else {
      var x, r := p[0], p[1..];
      var d := FlipOffset(r, |b|);
      var fr := FlipAll(r);
      assert FlipAll(p) == [FlipAll(p)[0]] + fr;
      // inner loops first
      forall i: nat | i < x.extent ensures multiset(Loop(p, b)(i)) == multiset(Loop([x] + fr, Add(b, d))(i)) {
        FlipAllVisits(r, Shift(b, x.strides, i));
        ShiftAdd(b, d, x.strides, i);
        assert ([x] + fr)[1..] == fr;
      }
      ConcatCongruentMultiset(Loop(p, b), Loop([x] + fr, Add(b, d)), x.extent);
      FlipOffsetFront(p, |b|);
      if Flips(x) {
        FlipFrontVisits(x, fr, Add(b, d));
        ShiftAdd(b, d, x.strides, x.extent - 1);
      }
    }
  }
}
