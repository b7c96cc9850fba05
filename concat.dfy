/** Concatenation of a counted family of sequences, `f(0) + f(1) + ... + f(n-1)`.
    A `for (i = 0; i < n; ++i)` loop whose body emits `f(i)` emits `Concat(f, n)`;
    every loop nest of the model is described this way. */
module Concats {

  function Concat<T>(f: nat -> seq<T>, n: nat): seq<T>
  {
    if n == 0 then [] else Concat(f, n - 1) + f(n - 1)
  }

  /** Counting the length of a loop's output one iteration at a time. */
  function SumLengths<T>(f: nat -> seq<T>, n: nat): nat
  {
    if n == 0 then 0 else SumLengths(f, n - 1) + |f(n - 1)|
  }

  lemma {:induction false} ConcatLength<T>(f: nat -> seq<T>, n: nat)
    ensures |Concat(f, n)| == SumLengths(f, n)
  {
    if n > 0 {
      ConcatLength(f, n - 1);
    }
  }

  /** Each iteration emitting `m` items: `n * m` items in all. */
  lemma {:induction false} ConcatUniformLength<T>(f: nat -> seq<T>, n: nat, m: nat)
    requires forall i :: 0 <= i < n ==> |f(i)| == m
    ensures |Concat(f, n)| == n * m
  {
    if n > 0 {
      ConcatUniformLength(f, n - 1, m);
    }
  }

  /** A loop whose every iteration emits nothing emits nothing. */
  lemma {:induction false} ConcatOfEmpty<T>(f: nat -> seq<T>, n: nat)
    requires forall i :: 0 <= i < n ==> f(i) == []
    ensures Concat(f, n) == []
  {
    if n > 0 {
      ConcatOfEmpty(f, n - 1);
    }
  }

  /** Two loops whose bodies emit the same sequences emit the same sequence. */
  lemma {:induction false} ConcatCongruent<T>(f: nat -> seq<T>, g: nat -> seq<T>, n: nat)
    requires forall i :: 0 <= i < n ==> f(i) == g(i)
    ensures Concat(f, n) == Concat(g, n)
  {
    if n > 0 {
      ConcatCongruent(f, g, n - 1);
    }
  }

  /** Multiset version of `ConcatCongruent`. */
  lemma {:induction false} ConcatCongruentMultiset<T>(f: nat -> seq<T>, g: nat -> seq<T>, n: nat)
    requires forall i :: 0 <= i < n ==> multiset(f(i)) == multiset(g(i))
    ensures multiset(Concat(f, n)) == multiset(Concat(g, n))
  {
    if n > 0 {
      ConcatCongruentMultiset(f, g, n - 1);
    }
  }

  /** The family `f` shifted to start at `a`: the iterations `a, a + 1, ...`. */
  function From<T>(f: nat -> seq<T>, a: nat): nat -> seq<T>
  {
    (j: nat) => f(a + j)
  }

  /** Splitting the iteration range `[0, a + b)` into `[0, a)` and `[a, a + b)`. */
  lemma {:induction false} ConcatSplit<T>(f: nat -> seq<T>, a: nat, b: nat)
    ensures Concat(f, a + b) == Concat(f, a) + Concat(From(f, a), b)
  {
    if b > 0 {
      ConcatSplit(f, a, b - 1);
      assert Concat(f, a + b) == Concat(f, a + (b - 1)) + f(a + (b - 1));
    }
  }

  /** Blocks of `m` consecutive iterations of `g`: block `i` covers `[i * m, i * m + m)`. */
  function Blocks<T>(g: nat -> seq<T>, m: nat): nat -> seq<T>
  {
    (i: nat) => Concat(From(g, i * m), m)
  }

  /** Two nested loops over `i < n`, `j < m` whose body depends only on `i * m + j`
      emit what one loop over `k < n * m` emits. */
  lemma {:induction false} ConcatNested<T>(g: nat -> seq<T>, n: nat, m: nat)
    ensures Concat(Blocks(g, m), n) == Concat(g, n * m)
  {
    if n > 0 {
      ConcatNested(g, n - 1, m);
      ConcatSplit(g, (n - 1) * m, m);
      assert (n - 1) * m + m == n * m;
    }
  }

  /** The family `f` enumerated backwards over `[0, n)`. */
  function Backwards<T>(f: nat -> seq<T>, n: nat): nat -> seq<T>
  {
    (i: nat) => if i < n then f(n - 1 - i) else []
  }

  /** Running a loop backwards emits the same multiset of items. */
  lemma {:induction false} ConcatReverseMultiset<T>(f: nat -> seq<T>, n: nat)
    ensures multiset(Concat(f, n)) == multiset(Concat(Backwards(f, n), n))
  {
    if n > 0 {
      var rev := Backwards(f, n);
      ConcatReverseMultiset(f, n - 1);
      ConcatSplit(rev, 1, n - 1);
      assert Concat(rev, 1) == f(n - 1);
      forall j | 0 <= j < n - 1 ensures From(rev, 1)(j) == Backwards(f, n - 1)(j) {
      }
      ConcatCongruent(From(rev, 1), Backwards(f, n - 1), n - 1);
    }
  }

  /** The family whose iteration `i` emits `f(i)` followed by `g(i)`. */
  function Both<T>(f: nat -> seq<T>, g: nat -> seq<T>): nat -> seq<T>
  {
    (i: nat) => f(i) + g(i)
  }

  /** Linearity: a loop emitting `f(i) + g(i)` emits the items of both loops. */
  lemma {:induction false} ConcatBothMultiset<T>(f: nat -> seq<T>, g: nat -> seq<T>, n: nat)
    ensures multiset(Concat(Both(f, g), n)) == multiset(Concat(f, n)) + multiset(Concat(g, n))
  {
    if n > 0 {
      ConcatBothMultiset(f, g, n - 1);
    }
  }

  /** Row `i` of a two-index family, as a family over `j`. */
  function RowAt<T>(g: (nat, nat) -> seq<T>, i: nat): nat -> seq<T>
  {
    (j: nat) => g(i, j)
  }

  /** Column `j` of a two-index family, as a family over `i`. */
  function ColumnAt<T>(g: (nat, nat) -> seq<T>, j: nat): nat -> seq<T>
  {
    (i: nat) => g(i, j)
  }

  /** The loop over `i < n` whose body is the inner loop over `j < m`. */
  function Row<T>(g: (nat, nat) -> seq<T>, m: nat): nat -> seq<T>
  {
    (i: nat) => Concat(RowAt(g, i), m)
  }

  /** The loop over `j < m` whose body is the inner loop over `i < n`. */
  function Column<T>(g: (nat, nat) -> seq<T>, n: nat): nat -> seq<T>
  {
    (j: nat) => Concat(ColumnAt(g, j), n)
  }

  /** Interchanging two nested loops keeps the multiset of emitted items. */
  lemma {:induction false} ConcatSwapMultiset<T>(g: (nat, nat) -> seq<T>, n: nat, m: nat)
    ensures multiset(Concat(Row(g, m), n)) == multiset(Concat(Column(g, n), m))
  {
    if n > 0 {
      ConcatSwapMultiset(g, n - 1, m);
      var last := RowAt(g, n - 1);
      forall j | 0 <= j < m ensures Column(g, n)(j) == Both(Column(g, n - 1), last)(j) {
      }
      ConcatCongruent(Column(g, n), Both(Column(g, n - 1), last), m);
      ConcatBothMultiset(Column(g, n - 1), last, m);
      calc {
        multiset(Concat(Row(g, m), n));
        multiset(Concat(Row(g, m), n - 1) + Row(g, m)(n - 1));
        multiset(Concat(Row(g, m), n - 1)) + multiset(Concat(last, m));
        multiset(Concat(Column(g, n - 1), m)) + multiset(Concat(last, m));
        multiset(Concat(Both(Column(g, n - 1), last), m));
        multiset(Concat(Column(g, n), m));
      }
    } else {
      ConcatOfEmpty(Column(g, n), m);
    }
  }

  /** An item is emitted by the loop iff some iteration emits it. */
  lemma {:induction false} ConcatMember<T>(f: nat -> seq<T>, n: nat, x: T)
    ensures x in Concat(f, n) <==> exists i :: 0 <= i < n && x in f(i)
  {
    if n > 0 {
      ConcatMember(f, n - 1, x);
    }
  }
}
