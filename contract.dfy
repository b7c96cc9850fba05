/** The strided CPU contraction kernel (src/kernel/cpu/contract.hpp).

    `GemmLoop` runs the fused M loops (stepping A and C), then the fused N loops
    (stepping B and C), and at each M x N cell the fused K loops (stepping A and
    B), accumulating `a * b` into `acc`; the cell is then overwritten with
    `beta * c + alpha * acc`.  The buffers are sequences of integers addressed by
    offsets from a base, as the kernel's pointers are; only C is written.

    The cells are described with the loop-nest semantics of `LoopNests`: an M
    descriptor `(e; sA, sC)` becomes the three-operand loop `(e; sA, 0, sC)` and an
    N descriptor `(e; sB, sC)` becomes `(e; 0, sB, sC)`, so the cells are the
    visits of `LiftM(M) + LiftN(N)` from the base offsets `[a, b, c]`. */
module Contract {
  import opened Concats
  import opened Strides
  import opened LoopNests

  /** The M loops as three-operand loops: B does not move. */
  function LiftM(g: seq<ExtentStrides>): (r: seq<ExtentStrides>)
    requires Arity(g, 2)
    ensures |r| == |g| && Arity(r, 3)
  {
    seq(|g|, d requires 0 <= d < |g| => ExtentStrides(g[d].extent, [g[d].strides[0], 0, g[d].strides[1]]))
  }

  /** The N loops as three-operand loops: A does not move. */
  function LiftN(g: seq<ExtentStrides>): (r: seq<ExtentStrides>)
    requires Arity(g, 2)
    ensures |r| == |g| && Arity(r, 3)
  {
    seq(|g|, d requires 0 <= d < |g| => ExtentStrides(g[d].extent, [0, g[d].strides[0], g[d].strides[1]]))
  }

  /** The `[a, b, c]` offsets of every M x N cell, in the order the loops reach them. */
  function Cells(mg: seq<ExtentStrides>, ng: seq<ExtentStrides>, pa: int, pb: int, pc: int): seq<seq<int>>
    requires Arity(mg, 2) && Arity(ng, 2)
  {
    Nest(LiftM(mg) + LiftN(ng), [pa, pb, pc])
  }

  /** The loop nest `p` from the base offsets `base`, as the sequence of offset
      vectors its innermost body sees; the same as `Visits(p, base)` (see
      `NestIsVisits`), written without a lambda so that its unfolding stays finite. */
  function Nest(p: seq<ExtentStrides>, base: seq<int>): seq<seq<int>>
    decreases |p|, 1
  {
    if p == [] then [base] else NestUpTo(p, base, p[0].extent)
  }

  /** The first `i` iterations of the outermost loop of `p`. */
  function NestUpTo(p: seq<ExtentStrides>, base: seq<int>, i: nat): seq<seq<int>>
    requires p != []
    decreases |p|, 0, i
  {
    if i == 0 then [] else NestUpTo(p, base, i - 1) + Nest(p[1..], Shift(base, p[0].strides, i - 1))
  }

  /** Every `[a, b]` pair lies within the buffers A and B. */
  predicate PairsInBounds(ws: seq<seq<int>>, na: nat, nb: nat)
  {
    forall w :: w in ws ==> |w| == 2 && 0 <= w[0] < na && 0 <= w[1] < nb
  }

  /** The element at offset `i`; the kernel only reads in-bounds offsets (every
      method requires it), so the value outside the buffer is never used. */
  function At(s: seq<int>, i: int): int
  {
    if 0 <= i < |s| then s[i] else 0
  }

  /** `a[x] * b[y]` summed over the pairs `[x, y]`, in order. */
  function SumProducts(a: seq<int>, b: seq<int>, ws: seq<seq<int>>): int
  {
    if ws == [] then 0
    else
      var w := ws[|ws| - 1];
      SumProducts(a, b, ws[..|ws| - 1]) + At(a, At(w, 0)) * At(b, At(w, 1))
  }

  /** The K loops of the cell at A offset `pa` and B offset `pb` read only within A and B. */
  predicate DotInBounds(kg: seq<ExtentStrides>, a: seq<int>, b: seq<int>, pa: int, pb: int)
  {
    PairsInBounds(Nest(kg, [pa, pb]), |a|, |b|)
  }

  /** The value `dotK` accumulates for the cell at A offset `pa` and B offset `pb`. */
  function Dot(kg: seq<ExtentStrides>, a: seq<int>, b: seq<int>, pa: int, pb: int): int
  {
    SumProducts(a, b, Nest(kg, [pa, pb]))
  }

  /** Every cell is an `[a, b, c]` triple whose C offset lies within C. */
  predicate TargetsInBounds(vs: seq<seq<int>>, n: nat)
  {
    forall v :: v in vs ==> |v| == 3 && 0 <= v[2] < n
  }

  /** The K loops of every cell read only within A and B. */
  predicate ReadsInBounds(kg: seq<ExtentStrides>, a: seq<int>, b: seq<int>, vs: seq<seq<int>>)
  {
    forall v :: v in vs && |v| == 3 ==> DotInBounds(kg, a, b, v[0], v[1])
  }

  /** What the kernel demands of its operands: every write within C, every read
      within A and B. */
  predicate CellsInBounds(kg: seq<ExtentStrides>, a: seq<int>, b: seq<int>, n: nat, vs: seq<seq<int>>)
  {
    TargetsInBounds(vs, n) && ReadsInBounds(kg, a, b, vs)
  }

  /** The accumulated value of a cell `[a, b, c]`. */
  function DotOf(kg: seq<ExtentStrides>, a: seq<int>, b: seq<int>): seq<int> -> int
  {
    v => Dot(kg, a, b, At(v, 0), At(v, 1))
  }

  /** C after the cells `vs` have been overwritten in turn with
      `beta * c + alpha * dot(cell)`. */
  function Updates(alpha: int, beta: int, dot: seq<int> -> int, cs: seq<int>, vs: seq<seq<int>>): (r: seq<int>)
    requires TargetsInBounds(vs, |cs|)
    ensures |r| == |cs|
  {
    if vs == [] then cs
    else
      var v := vs[|vs| - 1];
      assert v in vs;
      var t := Updates(alpha, beta, dot, cs, vs[..|vs| - 1]);
      t[v[2] := beta * t[v[2]] + alpha * dot(v)]
  }

  // ---------------------------------------------------------------------------
  // Sums and updates over one more iteration

  lemma {:induction false} SumProductsAppend(a: seq<int>, b: seq<int>, xs: seq<seq<int>>, ys: seq<seq<int>>)
    ensures SumProducts(a, b, xs + ys) == SumProducts(a, b, xs) + SumProducts(a, b, ys)
  {
    if ys != [] {
      var init := ys[..|ys| - 1];
      assert (xs + ys)[..|xs + ys| - 1] == xs + init;
      SumProductsAppend(a, b, xs, init);
    } else {
      assert xs + ys == xs;
    }
  }

  lemma {:induction false} UpdatesAppend(alpha: int, beta: int, dot: seq<int> -> int,
                                         cs: seq<int>, xs: seq<seq<int>>, ys: seq<seq<int>>)
    requires TargetsInBounds(xs + ys, |cs|)
    ensures TargetsInBounds(xs, |cs|) && TargetsInBounds(ys, |cs|)
    ensures Updates(alpha, beta, dot, cs, xs + ys)
         == Updates(alpha, beta, dot, Updates(alpha, beta, dot, cs, xs), ys)
  {
    if ys != [] {
      var init := ys[..|ys| - 1];
      assert (xs + ys)[..|xs + ys| - 1] == xs + init;
      UpdatesAppend(alpha, beta, dot, cs, xs, init);
    } else {
      assert xs + ys == xs;
    }
  }

  /** A two-operand base moved `i` steps. */
  lemma ShiftTwo(x: int, y: int, s: seq<int>, i: int)
    requires |s| == 2
    ensures Shift([x, y], s, i) == [x + i * s[0], y + i * s[1]]
  {
  }

  /** A three-operand base moved `i` steps. */
  lemma ShiftThree(x: int, y: int, z: int, s: seq<int>, i: int)
    requires |s| == 3
    ensures Shift([x, y, z], s, i) == [x + i * s[0], y + i * s[1], z + i * s[2]]
  {
  }

  lemma {:induction false} NestUpToIsConcat(p: seq<ExtentStrides>, base: seq<int>, i: nat)
    requires p != []
    ensures NestUpTo(p, base, i) == Concat(Loop(p, base), i)
    decreases |p|, 0, i
  {
    if i > 0 {
      NestUpToIsConcat(p, base, i - 1);
      NestIsVisits(p[1..], Shift(base, p[0].strides, i - 1));
    }
  }

  /** `Nest` is the loop-nest semantics `Visits`. */
  lemma {:induction false} NestIsVisits(p: seq<ExtentStrides>, base: seq<int>)
    ensures Nest(p, base) == Visits(p, base)
    decreases |p|, 1
  {
    if p != [] {
      NestUpToIsConcat(p, base, p[0].extent);
    }
  }

  /** The first `i` iterations emit a part of what the first `n` emit. */
  lemma {:induction false} NestUpToPart(p: seq<ExtentStrides>, base: seq<int>, i: nat, n: nat)
    requires p != [] && i <= n
    ensures forall x :: x in NestUpTo(p, base, i) ==> x in NestUpTo(p, base, n)
  {
    if i < n {
      NestUpToPart(p, base, i, n - 1);
    }
  }

  /** The visits of iteration `i` are among the visits of the whole nest. */
  lemma IterationPart(p: seq<ExtentStrides>, base: seq<int>, i: nat)
    requires p != [] && i < p[0].extent
    ensures forall x :: x in NestUpTo(p, base, i + 1) ==> x in Nest(p, base)
    ensures forall x :: x in Nest(p[1..], Shift(base, p[0].strides, i)) ==> x in Nest(p, base)
  {
    NestUpToPart(p, base, i + 1, p[0].extent);
  }

  /** The reads of iteration `i` of a K loop, whose sub-nest `q` starts from
      `[qa, qb]`, are among the loop's. */
  lemma DotStepBounds(p: seq<ExtentStrides>, q: seq<ExtentStrides>, a: seq<int>, b: seq<int>,
                      pa: int, pb: int, i: nat, qa: int, qb: int)
    requires p != [] && i < p[0].extent && |p[0].strides| == 2 && q == p[1..]
    requires qa == pa + i * p[0].strides[0] && qb == pb + i * p[0].strides[1]
    requires PairsInBounds(Nest(p, [pa, pb]), |a|, |b|)
    ensures PairsInBounds(Nest(q, [qa, qb]), |a|, |b|)
  {
    ShiftTwo(pa, pb, p[0].strides, i);
    IterationPart(p, [pa, pb], i);
  }

  /** Iteration `i` of a K loop adds the products of its sub-nest. */
  lemma DotStep(p: seq<ExtentStrides>, q: seq<ExtentStrides>, a: seq<int>, b: seq<int>,
                pa: int, pb: int, i: nat, qa: int, qb: int)
    requires p != [] && |p[0].strides| == 2 && q == p[1..]
    requires qa == pa + i * p[0].strides[0] && qb == pb + i * p[0].strides[1]
    ensures SumProducts(a, b, NestUpTo(p, [pa, pb], i + 1))
         == SumProducts(a, b, NestUpTo(p, [pa, pb], i)) + SumProducts(a, b, Nest(q, [qa, qb]))
  {
    ShiftTwo(pa, pb, p[0].strides, i);
    SumProductsAppend(a, b, NestUpTo(p, [pa, pb], i), Nest(p[1..], Shift([pa, pb], p[0].strides, i)));
  }

  /** The writes and reads of iteration `i` of an M or N loop, whose sub-nest `q`
      starts from `[qa, qb, qc]`, are among the loop's. */
  lemma CellStepBounds(kg: seq<ExtentStrides>, a: seq<int>, b: seq<int>, n: nat,
                       p: seq<ExtentStrides>, q: seq<ExtentStrides>, pa: int, pb: int, pc: int, i: nat,
                       qa: int, qb: int, qc: int)
    requires p != [] && i < p[0].extent && |p[0].strides| == 3 && q == p[1..]
    requires qa == pa + i * p[0].strides[0] && qb == pb + i * p[0].strides[1] && qc == pc + i * p[0].strides[2]
    requires CellsInBounds(kg, a, b, n, Nest(p, [pa, pb, pc]))
    ensures TargetsInBounds(NestUpTo(p, [pa, pb, pc], i + 1), n)
    ensures CellsInBounds(kg, a, b, n, Nest(q, [qa, qb, qc]))
  {
    ShiftThree(pa, pb, pc, p[0].strides, i);
    assert Shift([pa, pb, pc], p[0].strides, i) == [qa, qb, qc];
    IterationPart(p, [pa, pb, pc], i);
  }

  /** Iteration `i` of an M or N loop updates the cells of its sub-nest. */
  lemma CellStep(alpha: int, beta: int, dot: seq<int> -> int, cs: seq<int>,
                 p: seq<ExtentStrides>, q: seq<ExtentStrides>, pa: int, pb: int, pc: int, i: nat,
                 qa: int, qb: int, qc: int)
    requires p != [] && |p[0].strides| == 3 && q == p[1..]
    requires qa == pa + i * p[0].strides[0] && qb == pb + i * p[0].strides[1] && qc == pc + i * p[0].strides[2]
    requires TargetsInBounds(NestUpTo(p, [pa, pb, pc], i + 1), |cs|)
    ensures TargetsInBounds(NestUpTo(p, [pa, pb, pc], i), |cs|)
    ensures TargetsInBounds(Nest(q, [qa, qb, qc]), |cs|)
    ensures Updates(alpha, beta, dot, cs, NestUpTo(p, [pa, pb, pc], i + 1))
         == Updates(alpha, beta, dot, Updates(alpha, beta, dot, cs, NestUpTo(p, [pa, pb, pc], i)), Nest(q, [qa, qb, qc]))
  {
    ShiftThree(pa, pb, pc, p[0].strides, i);
    assert Shift([pa, pb, pc], p[0].strides, i) == [qa, qb, qc];
    assert NestUpTo(p, [pa, pb, pc], i + 1) == NestUpTo(p, [pa, pb, pc], i) + Nest(q, [qa, qb, qc]);
    UpdatesAppend(alpha, beta, dot, cs, NestUpTo(p, [pa, pb, pc], i), Nest(q, [qa, qb, qc]));
  }

  // ---------------------------------------------------------------------------
  // The kernel

  /** `GemmLoop`: the fused groups and the two scalars, fixed at construction. */
  class GemmLoop {
    const mg: seq<ExtentStrides>
    const ng: seq<ExtentStrides>
    const kg: seq<ExtentStrides>
    const alpha: int
    const beta: int

    /** Every group descriptor carries two strides (`extent_strides<2>`). */
    predicate Valid()
    {
      Arity(mg, 2) && Arity(ng, 2) && Arity(kg, 2)
    }

    constructor (mgrp: seq<ExtentStrides>, ngrp: seq<ExtentStrides>, kgrp: seq<ExtentStrides>, alpha: int, beta: int)
      requires Arity(mgrp, 2) && Arity(ngrp, 2) && Arity(kgrp, 2)
      ensures Valid()
      ensures mg == mgrp && ng == ngrp && kg == kgrp && this.alpha == alpha && this.beta == beta
    {
      mg, ng, kg := mgrp, ngrp, kgrp;
      this.alpha, this.beta := alpha, beta;
    }

    /** `run`: all cells of the contraction, from the three base offsets. */
    method Run(a: seq<int>, b: seq<int>, c: array<int>, pa: int, pb: int, pc: int)
      requires Valid() && CellsInBounds(kg, a, b, c.Length, Cells(mg, ng, pa, pb, pc))
      modifies c
      ensures c[..] == Updates(alpha, beta, DotOf(kg, a, b), old(c[..]), Cells(mg, ng, pa, pb, pc))
    {
      assert LiftM(mg)[0..] == LiftM(mg);
      LoopM(0, a, b, c, pa, pb, pc);
    }

    /** `loopM`: the M loop `dim` and everything inside it. */
    method LoopM(dim: nat, a: seq<int>, b: seq<int>, c: array<int>, pa: int, pb: int, pc: int)
      requires Valid() && dim <= |mg|
      requires CellsInBounds(kg, a, b, c.Length, Nest(LiftM(mg)[dim..] + LiftN(ng), [pa, pb, pc]))
      modifies c
      ensures c[..] == Updates(alpha, beta, DotOf(kg, a, b), old(c[..]), Nest(LiftM(mg)[dim..] + LiftN(ng), [pa, pb, pc]))
      decreases |mg| - dim
    {
      ghost var p := LiftM(mg)[dim..] + LiftN(ng);
      if dim == |mg| {
        assert p == LiftN(ng)[0..];
        LoopN(0, a, b, c, pa, pb, pc);
        return;
      }
      var extent := mg[dim].extent;
      var sA := mg[dim].strides[0];
      var sC := mg[dim].strides[1];
      assert p[0] == ExtentStrides(extent, [sA, 0, sC]);
      assert p[1..] == LiftM(mg)[dim + 1..] + LiftN(ng);
      ghost var c0 := c[..];
      var ap, cp := pa, pc;
      var i := 0;
      while i < extent
        invariant 0 <= i <= extent && ap == pa + i * sA && cp == pc + i * sC
        invariant TargetsInBounds(NestUpTo(p, [pa, pb, pc], i), c.Length)
        invariant c[..] == Updates(alpha, beta, DotOf(kg, a, b), c0, NestUpTo(p, [pa, pb, pc], i))
      {
        assert pb == pb + i * 0;
        CellStepBounds(kg, a, b, c.Length, p, LiftM(mg)[dim + 1..] + LiftN(ng), pa, pb, pc, i, ap, pb, cp);
        CellStep(alpha, beta, DotOf(kg, a, b), c0, p, LiftM(mg)[dim + 1..] + LiftN(ng), pa, pb, pc, i, ap, pb, cp);
        LoopM(dim + 1, a, b, c, ap, pb, cp);
        NextOffset(pa, i, sA, ap);
        NextOffset(pc, i, sC, cp);
        ap := ap + sA;
        cp := cp + sC;
        i := i + 1;
      }
    }

    /** `loopN`: the N loop `dim` and everything inside it; at the innermost
        level, the cell update. */
    method LoopN(dim: nat, a: seq<int>, b: seq<int>, c: array<int>, pa: int, pb: int, pc: int)
      requires Valid() && dim <= |ng|
      requires CellsInBounds(kg, a, b, c.Length, Nest(LiftN(ng)[dim..], [pa, pb, pc]))
      modifies c
      ensures c[..] == Updates(alpha, beta, DotOf(kg, a, b), old(c[..]), Nest(LiftN(ng)[dim..], [pa, pb, pc]))
      decreases |ng| - dim
    {
      ghost var p := LiftN(ng)[dim..];
      if dim == |ng| {
        assert p == [];
        assert Nest(p, [pa, pb, pc]) == [[pa, pb, pc]];
        UpdateCell(a, b, c, pa, pb, pc);
        return;
      }
      var extent := ng[dim].extent;
      var sB := ng[dim].strides[0];
      var sC := ng[dim].strides[1];
      assert p[0] == ExtentStrides(extent, [0, sB, sC]);
      assert p[1..] == LiftN(ng)[dim + 1..];
      ghost var c0 := c[..];
      var bp, cp := pb, pc;
      var j := 0;
      while j < extent
        invariant 0 <= j <= extent && bp == pb + j * sB && cp == pc + j * sC
        invariant TargetsInBounds(NestUpTo(p, [pa, pb, pc], j), c.Length)
        invariant c[..] == Updates(alpha, beta, DotOf(kg, a, b), c0, NestUpTo(p, [pa, pb, pc], j))
      {
        assert pa == pa + j * 0;
        CellStepBounds(kg, a, b, c.Length, p, LiftN(ng)[dim + 1..], pa, pb, pc, j, pa, bp, cp);
        CellStep(alpha, beta, DotOf(kg, a, b), c0, p, LiftN(ng)[dim + 1..], pa, pb, pc, j, pa, bp, cp);
        LoopN(dim + 1, a, b, c, pa, bp, cp);
        NextOffset(pb, j, sB, bp);
        NextOffset(pc, j, sC, cp);
        bp := bp + sB;
        cp := cp + sC;
        j := j + 1;
      }
    }

    /** The innermost level of `loopN`: C's cell becomes `beta * c + alpha * acc`,
        `acc` the sum over the K loops. */
    method UpdateCell(a: seq<int>, b: seq<int>, c: array<int>, pa: int, pb: int, pc: int)
      requires Valid() && CellsInBounds(kg, a, b, c.Length, [[pa, pb, pc]])
      modifies c
      ensures c[..] == Updates(alpha, beta, DotOf(kg, a, b), old(c[..]), [[pa, pb, pc]])
    {
      assert [pa, pb, pc] in [[pa, pb, pc]];
      assert [[pa, pb, pc]][..0] == [];
      assert kg[0..] == kg;
      var acc := DotK(0, a, b, pa, pb, 0);
      c[pc] := beta * c[pc] + alpha * acc;
    }

    /** `dotK`: the K loop `dim` and everything inside it, adding `a * b` to the
        accumulator at each innermost step. */
    method DotK(dim: nat, a: seq<int>, b: seq<int>, pa: int, pb: int, acc: int) returns (r: int)
      requires Valid() && dim <= |kg| && DotInBounds(kg[dim..], a, b, pa, pb)
      ensures r == acc + SumProducts(a, b, Nest(kg[dim..], [pa, pb]))
      decreases |kg| - dim
    {
      ghost var p := kg[dim..];
      if dim == |kg| {
        assert p == [];
        assert Nest(p, [pa, pb]) == [[pa, pb]] && Nest(p, [pa, pb])[..0] == [];
        assert [pa, pb] in Nest(p, [pa, pb]);
        r := acc + a[pa] * b[pb];
        return;
      }
      var extent := kg[dim].extent;
      var sA := kg[dim].strides[0];
      var sB := kg[dim].strides[1];
      assert p[0] == kg[dim] && p[1..] == kg[dim + 1..];
      var ap, bp := pa, pb;
      r := acc;
      var k := 0;
      while k < extent
        invariant 0 <= k <= extent && ap == pa + k * sA && bp == pb + k * sB
        invariant r == acc + SumProducts(a, b, NestUpTo(p, [pa, pb], k))
      {
        DotStepBounds(p, kg[dim + 1..], a, b, pa, pb, k, ap, bp);
        DotStep(p, kg[dim + 1..], a, b, pa, pb, k, ap, bp);
        r := DotK(dim + 1, a, b, ap, bp, r);
        NextOffset(pa, k, sA, ap);
        NextOffset(pb, k, sB, bp);
        ap := ap + sA;
        bp := bp + sB;
        k := k + 1;
      }
    }
  }

  /** `contract_strided`: builds the loop engine and runs it once. */
  method ContractStrided(mg: seq<ExtentStrides>, ng: seq<ExtentStrides>, kg: seq<ExtentStrides>, alpha: int,
                         a: seq<int>, pa: int, b: seq<int>, pb: int, beta: int, c: array<int>, pc: int)
    requires Arity(mg, 2) && Arity(ng, 2) && Arity(kg, 2)
    requires CellsInBounds(kg, a, b, c.Length, Cells(mg, ng, pa, pb, pc))
    modifies c
    ensures c[..] == Updates(alpha, beta, DotOf(kg, a, b), old(c[..]), Cells(mg, ng, pa, pb, pc))
  {
    var loop := new GemmLoop(mg, ng, kg, alpha, beta);
    loop.Run(a, b, c, pa, pb, pc);
  }

  // ---------------------------------------------------------------------------
  // What the kernel computes

  /** No two cells write the same element of C. */
  predicate DistinctTargets(vs: seq<seq<int>>)
  {
    forall i, j :: 0 <= i < j < |vs| && |vs[i]| == 3 && |vs[j]| == 3 ==> vs[i][2] != vs[j][2]
  }

  /** When no two cells share an element of C, every cell's element becomes
      `beta * old + alpha * dot(cell)` and every other element keeps its value. */
  lemma {:induction false} UpdatesOnce(alpha: int, beta: int, dot: seq<int> -> int, cs: seq<int>, vs: seq<seq<int>>)
    requires TargetsInBounds(vs, |cs|) && DistinctTargets(vs)
    ensures forall k :: 0 <= k < |vs| ==>
              |vs[k]| == 3 && Updates(alpha, beta, dot, cs, vs)[vs[k][2]] == beta * cs[vs[k][2]] + alpha * dot(vs[k])
    ensures forall j :: 0 <= j < |cs| && (forall k :: 0 <= k < |vs| ==> vs[k][2] != j) ==>
              Updates(alpha, beta, dot, cs, vs)[j] == cs[j]
  {
    if vs != [] {
      var init := vs[..|vs| - 1];
      var v := vs[|vs| - 1];
      assert v in vs;
      assert forall k :: 0 <= k < |init| ==> init[k] == vs[k] && vs[k] in vs;
      UpdatesOnce(alpha, beta, dot, cs, init);
      forall k | 0 <= k < |vs| - 1 ensures vs[k][2] != v[2] {
        assert vs[k] in vs;
      }
    }
  }

  /** The kernel's result: with every cell writing its own element of C, that
      element becomes `beta * C + alpha * (the sum over the K loops of a * b)`, and
      the rest of C is unchanged. */
  lemma KernelResult(kg: seq<ExtentStrides>, alpha: int, beta: int, a: seq<int>, b: seq<int>, cs: seq<int>,
                     vs: seq<seq<int>>)
    requires CellsInBounds(kg, a, b, |cs|, vs) && DistinctTargets(vs)
    ensures forall k :: 0 <= k < |vs| ==>
              |vs[k]| == 3 &&
              Updates(alpha, beta, DotOf(kg, a, b), cs, vs)[vs[k][2]] ==
              beta * cs[vs[k][2]] + alpha * Dot(kg, a, b, vs[k][0], vs[k][1])
    ensures forall j :: 0 <= j < |cs| && (forall k :: 0 <= k < |vs| ==> vs[k][2] != j) ==>
              Updates(alpha, beta, DotOf(kg, a, b), cs, vs)[j] == cs[j]
  {
    UpdatesOnce(alpha, beta, DotOf(kg, a, b), cs, vs);
  }

  /** The two degenerate K groups: with no K loop the accumulator is the single
      product `a * b`; with a K loop of extent 0 it stays 0, so the cell becomes
      `beta * C`. */
  lemma DotDegenerate(kg: seq<ExtentStrides>, a: seq<int>, b: seq<int>, pa: int, pb: int)
    ensures kg == [] && 0 <= pa < |a| && 0 <= pb < |b| ==> Dot(kg, a, b, pa, pb) == a[pa] * b[pb]
    ensures (exists k :: 0 <= k < |kg| && kg[k].extent == 0) ==> Dot(kg, a, b, pa, pb) == 0
  {
    if k :| 0 <= k < |kg| && kg[k].extent == 0 {
      NestIsVisits(kg, [pa, pb]);
      VisitsOfZeroExtent(kg, [pa, pb], k);
    }
    if kg == [] {
      assert Nest(kg, [pa, pb]) == [[pa, pb]];
      assert Nest(kg, [pa, pb])[..0] == [];
      assert At([pa, pb], 0) == pa && At([pa, pb], 1) == pb;
      assert SumProducts(a, b, [[pa, pb]]) == SumProducts(a, b, []) + At(a, pa) * At(b, pb);
    }
  }

  lemma {:induction false} LiftProduct(g: seq<ExtentStrides>)
    requires Arity(g, 2)
    ensures Product(LiftM(g)) == Product(g) && Product(LiftN(g)) == Product(g)
  {
    if g != [] {
      assert LiftM(g)[1..] == LiftM(g[1..]);
      assert LiftN(g)[1..] == LiftN(g[1..]);
      LiftProduct(g[1..]);
    }
  }

  /** The M x N loops reach one cell per pair of M and N index tuples. */
  lemma CellsCount(mg: seq<ExtentStrides>, ng: seq<ExtentStrides>, pa: int, pb: int, pc: int)
    requires Arity(mg, 2) && Arity(ng, 2)
    ensures |Cells(mg, ng, pa, pb, pc)| == Product(mg) * Product(ng)
  {
    NestIsVisits(LiftM(mg) + LiftN(ng), [pa, pb, pc]);
    VisitsLength(LiftM(mg) + LiftN(ng), [pa, pb, pc]);
    ProductAppend(LiftM(mg), LiftN(ng));
    LiftProduct(mg);
    LiftProduct(ng);
  }

  // ---------------------------------------------------------------------------
  // The 2 x 2 product with every combination of row- and column-major operands

  /** The strides `(s0, s1)` of a 2 x 2 matrix: `layout_right` or `layout_left`. */
  function Strides2(rowMajor: bool): (s: (int, int))
  {
    if rowMajor then (2, 1) else (1, 2)
  }

  /** A loop of extent 2 runs its body at steps 0 and 1. */
  lemma NestOfTwo(p: seq<ExtentStrides>, base: seq<int>)
    requires p != [] && p[0].extent == 2
    ensures Nest(p, base) == Nest(p[1..], Shift(base, p[0].strides, 0)) + Nest(p[1..], Shift(base, p[0].strides, 1))
  {
    assert NestUpTo(p, base, 1) == NestUpTo(p, base, 0) + Nest(p[1..], Shift(base, p[0].strides, 0));
    assert NestUpTo(p, base, 2) == NestUpTo(p, base, 1) + Nest(p[1..], Shift(base, p[0].strides, 1));
  }

  /** The cells of one M loop and one N loop of extent 2, from offset 0. */
  lemma TwoByTwoCells(sa0: int, sc0: int, sb1: int, sc1: int)
    ensures Cells([ExtentStrides(2, [sa0, sc0])], [ExtentStrides(2, [sb1, sc1])], 0, 0, 0)
         == [[0, 0, 0], [0, sb1, sc1], [sa0, 0, sc0], [sa0, sb1, sc0 + sc1]]
  {
    var p := LiftM([ExtentStrides(2, [sa0, sc0])]) + LiftN([ExtentStrides(2, [sb1, sc1])]);
    assert p == [ExtentStrides(2, [sa0, 0, sc0]), ExtentStrides(2, [0, sb1, sc1])];
    var q := p[1..];
    assert q[1..] == [];
    NestOfTwo(p, [0, 0, 0]);
    ShiftThree(0, 0, 0, p[0].strides, 0);
    ShiftThree(0, 0, 0, p[0].strides, 1);
    NestOfTwo(q, [0, 0, 0]);
    NestOfTwo(q, [sa0, 0, sc0]);
    ShiftThree(0, 0, 0, q[0].strides, 0);
    ShiftThree(0, 0, 0, q[0].strides, 1);
    ShiftThree(sa0, 0, sc0, q[0].strides, 0);
    ShiftThree(sa0, 0, sc0, q[0].strides, 1);
    assert Nest(q, [0, 0, 0]) == [[0, 0, 0], [0, sb1, sc1]];
    assert Nest(q, [sa0, 0, sc0]) == [[sa0, 0, sc0], [sa0, sb1, sc0 + sc1]];
  }

  /** The pairs one K loop of extent 2 reads. */
  lemma TwoTermNest(sa1: int, sb0: int, x: int, y: int)
    ensures Nest([ExtentStrides(2, [sa1, sb0])], [x, y]) == [[x, y], [x + sa1, y + sb0]]
  {
    var k := [ExtentStrides(2, [sa1, sb0])];
    assert k[1..] == [];
    NestOfTwo(k, [x, y]);
    ShiftTwo(x, y, k[0].strides, 0);
    ShiftTwo(x, y, k[0].strides, 1);
  }

  /** The accumulator of one K loop of extent 2. */
  lemma TwoTermDot(sa1: int, sb0: int, a: seq<int>, b: seq<int>, x: int, y: int)
    ensures Dot([ExtentStrides(2, [sa1, sb0])], a, b, x, y) == At(a, x) * At(b, y) + At(a, x + sa1) * At(b, y + sb0)
  {
    TwoTermNest(sa1, sb0, x, y);
    var ws := [[x, y], [x + sa1, y + sb0]];
    assert ws[..1] == [[x, y]] && ws[..1][..0] == [];
    assert At(ws[0], 0) == x && At(ws[0], 1) == y && At(ws[1], 0) == x + sa1 && At(ws[1], 1) == y + sb0;
    assert SumProducts(a, b, ws[..1]) == SumProducts(a, b, []) + At(a, x) * At(b, y);
    assert SumProducts(a, b, ws) == SumProducts(a, b, ws[..1]) + At(a, x + sa1) * At(b, y + sb0);
  }

  /** A = [[1, 2], [3, 4]], B = [[5, 6], [7, 8]] and their product C, stored
      row-major or column-major. */
  function MatrixA(rowMajor: bool): seq<int> { if rowMajor then [1, 2, 3, 4] else [1, 3, 2, 4] }
  function MatrixB(rowMajor: bool): seq<int> { if rowMajor then [5, 6, 7, 8] else [5, 7, 6, 8] }
  function MatrixC(rowMajor: bool): seq<int> { if rowMajor then [19, 22, 43, 50] else [19, 43, 22, 50] }

  /** `AllLayoutCombinations`: contracting A's column index with B's row index,
      with C zero, gives [[19, 22], [43, 50]] whichever of A, B and C is row- or
      column-major.  The groups are those of the contraction: M = (2; A's stride
      0, C's stride 0), N = (2; B's stride 1, C's stride 1), K = (2; A's stride 1,
      B's stride 0). */
  lemma MatMulAllLayouts(ra: bool, rb: bool, rc: bool)
    ensures
      var sa, sb, sc := Strides2(ra), Strides2(rb), Strides2(rc);
      var kg := [ExtentStrides(2, [sa.1, sb.0])];
      var cells := Cells([ExtentStrides(2, [sa.0, sc.0])], [ExtentStrides(2, [sb.1, sc.1])], 0, 0, 0);
      CellsInBounds(kg, MatrixA(ra), MatrixB(rb), 4, cells) &&
      Updates(1, 1, DotOf(kg, MatrixA(ra), MatrixB(rb)), [0, 0, 0, 0], cells) == MatrixC(rc)
  {
    MatMulBounds(ra, rb, rc);
    MatMulEntries(ra, rb, rc);
  }

  /** The example's cells read A and B in bounds. */
  lemma MatMulBounds(ra: bool, rb: bool, rc: bool)
    ensures
      var sa, sb, sc := Strides2(ra), Strides2(rb), Strides2(rc);
      var kg := [ExtentStrides(2, [sa.1, sb.0])];
      var cells := Cells([ExtentStrides(2, [sa.0, sc.0])], [ExtentStrides(2, [sb.1, sc.1])], 0, 0, 0);
      CellsInBounds(kg, MatrixA(ra), MatrixB(rb), 4, cells)
  {
    var sa, sb, sc := Strides2(ra), Strides2(rb), Strides2(rc);
    TwoByTwoCells(sa.0, sc.0, sb.1, sc.1);
    TwoByTwoBounds(sa.0, sa.1, sb.0, sb.1, sc.0, sc.1, MatrixA(ra), MatrixB(rb));
  }

  /** The example's updates leave C holding the product in C's own layout. */
  lemma MatMulEntries(ra: bool, rb: bool, rc: bool)
    ensures
      var sa, sb, sc := Strides2(ra), Strides2(rb), Strides2(rc);
      var kg := [ExtentStrides(2, [sa.1, sb.0])];
      var cells := Cells([ExtentStrides(2, [sa.0, sc.0])], [ExtentStrides(2, [sb.1, sc.1])], 0, 0, 0);
      TargetsInBounds(cells, 4) &&
      Updates(1, 1, DotOf(kg, MatrixA(ra), MatrixB(rb)), [0, 0, 0, 0], cells) == MatrixC(rc)
  {
    var sa, sb, sc := Strides2(ra), Strides2(rb), Strides2(rc);
    var a, b := MatrixA(ra), MatrixB(rb);
    var kg := [ExtentStrides(2, [sa.1, sb.0])];
    TwoByTwoCells(sa.0, sc.0, sb.1, sc.1);
    TwoByTwoUpdates(kg, sa.0, sb.1, sc.0, sc.1, a, b);
    ProductEntries(ra, rb);
    assert MatrixC(rc) == if sc.0 == 2 then [19, 22, 43, 50] else [19, 43, 22, 50];
  }

  /** The four row-times-column sums of the example, whatever the layouts of A and B. */
  lemma ProductEntries(ra: bool, rb: bool)
    ensures
      var sa, sb, a, b := Strides2(ra), Strides2(rb), MatrixA(ra), MatrixB(rb);
      var kg := [ExtentStrides(2, [sa.1, sb.0])];
      Dot(kg, a, b, 0, 0) == 19 && Dot(kg, a, b, 0, sb.1) == 22 &&
      Dot(kg, a, b, sa.0, 0) == 43 && Dot(kg, a, b, sa.0, sb.1) == 50
  {
    var sa, sb, a, b := Strides2(ra), Strides2(rb), MatrixA(ra), MatrixB(rb);
    TwoTermDot(sa.1, sb.0, a, b, 0, 0);
    TwoTermDot(sa.1, sb.0, a, b, 0, sb.1);
    TwoTermDot(sa.1, sb.0, a, b, sa.0, 0);
    TwoTermDot(sa.1, sb.0, a, b, sa.0, sb.1);
    assert 0 + sa.1 == sa.1 && 0 + sb.0 == sb.0 && sa.0 + sa.1 == 3 && sb.1 + sb.0 == 3;
  }

  /** One cell of a K loop of extent 2 reads A and B in bounds. */
  lemma TwoTermInBounds(sa1: int, sb0: int, a: seq<int>, b: seq<int>, x: int, y: int)
    requires 0 <= x && 0 <= sa1 && x + sa1 < |a| && 0 <= y && 0 <= sb0 && y + sb0 < |b|
    ensures DotInBounds([ExtentStrides(2, [sa1, sb0])], a, b, x, y)
  {
    TwoTermNest(sa1, sb0, x, y);
  }

  /** Every 2 x 2 cell reads A and B in bounds. */
  lemma TwoByTwoBounds(sa0: int, sa1: int, sb0: int, sb1: int, sc0: int, sc1: int, a: seq<int>, b: seq<int>)
    requires (sc0 == 2 && sc1 == 1) || (sc0 == 1 && sc1 == 2)
    requires 0 <= sa0 && 0 <= sa1 && sa0 + sa1 < |a| && 0 <= sb0 && 0 <= sb1 && sb0 + sb1 < |b|
    ensures CellsInBounds([ExtentStrides(2, [sa1, sb0])], a, b, 4,
                          [[0, 0, 0], [0, sb1, sc1], [sa0, 0, sc0], [sa0, sb1, sc0 + sc1]])
  {
    var kg := [ExtentStrides(2, [sa1, sb0])];
    var cells := [[0, 0, 0], [0, sb1, sc1], [sa0, 0, sc0], [sa0, sb1, sc0 + sc1]];
    TwoTermInBounds(sa1, sb0, a, b, 0, 0);
    TwoTermInBounds(sa1, sb0, a, b, 0, sb1);
    TwoTermInBounds(sa1, sb0, a, b, sa0, 0);
    TwoTermInBounds(sa1, sb0, a, b, sa0, sb1);
    forall v | v in cells ensures |v| == 3 && 0 <= v[2] < 4 && DotInBounds(kg, a, b, v[0], v[1]) {
      var k :| 0 <= k < 4 && cells[k] == v;
    }
  }

  /** The 2 x 2 cells with C laid out either way: each element of C receives the
      accumulator of its row of A and its column of B. */
  lemma TwoByTwoUpdates(kg: seq<ExtentStrides>, sa0: int, sb1: int, sc0: int, sc1: int, a: seq<int>, b: seq<int>)
    requires (sc0 == 2 && sc1 == 1) || (sc0 == 1 && sc1 == 2)
    ensures
      var cells := [[0, 0, 0], [0, sb1, sc1], [sa0, 0, sc0], [sa0, sb1, sc0 + sc1]];
      var d00, d01 := Dot(kg, a, b, 0, 0), Dot(kg, a, b, 0, sb1);
      var d10, d11 := Dot(kg, a, b, sa0, 0), Dot(kg, a, b, sa0, sb1);
      Updates(1, 1, DotOf(kg, a, b), [0, 0, 0, 0], cells)
        == if sc0 == 2 then [d00, d01, d10, d11] else [d00, d10, d01, d11]
  {
    var cells := [[0, 0, 0], [0, sb1, sc1], [sa0, 0, sc0], [sa0, sb1, sc0 + sc1]];
    var dot := DotOf(kg, a, b);
    FourCells(dot, cells, sc0, sc1);
    assert dot(cells[0]) == Dot(kg, a, b, 0, 0);
    assert dot(cells[1]) == Dot(kg, a, b, 0, sb1);
    assert dot(cells[2]) == Dot(kg, a, b, sa0, 0);
    assert dot(cells[3]) == Dot(kg, a, b, sa0, sb1);
  }

  /** Four cells writing the four elements of a zero C, in the order of a row- or
      a column-major C. */
  lemma FourCells(dot: seq<int> -> int, vs: seq<seq<int>>, sc0: int, sc1: int)
    requires (sc0 == 2 && sc1 == 1) || (sc0 == 1 && sc1 == 2)
    requires |vs| == 4 && forall k :: 0 <= k < 4 ==> |vs[k]| == 3
    requires vs[0][2] == 0 && vs[1][2] == sc1 && vs[2][2] == sc0 && vs[3][2] == 3
    ensures Updates(1, 1, dot, [0, 0, 0, 0], vs)
            == if sc0 == 2 then [dot(vs[0]), dot(vs[1]), dot(vs[2]), dot(vs[3])]
               else [dot(vs[0]), dot(vs[2]), dot(vs[1]), dot(vs[3])]
  {
    assert TargetsInBounds(vs, 4) by {
      forall v | v in vs ensures |v| == 3 && 0 <= v[2] < 4 {
        var k :| 0 <= k < 4 && vs[k] == v;
      }
    }
    assert DistinctTargets(vs);
    UpdatesOnce(1, 1, dot, [0, 0, 0, 0], vs);
    var r := Updates(1, 1, dot, [0, 0, 0, 0], vs);
    assert r[0] == dot(vs[0]) && r[sc1] == dot(vs[1]) && r[sc0] == dot(vs[2]) && r[3] == dot(vs[3]);
  }
}
