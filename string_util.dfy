/** Case-insensitive comparison and text-to-value conversion
    (src/common/string_util.hpp), with the decimal digit helpers the
    terminal parsers share.

    Characters are `char`; `std::tolower` is taken in the "C" locale, where it
    changes only 'A'..'Z'.  The arithmetic branch of `from_string` is modelled
    for `int` (32 bits); the floating-point branch and the stream-extraction
    branch are not part of this model. */
module StringUtil {
  import opened Wrappers

  const IntMin := -0x8000_0000
  const IntMax := 0x7fff_ffff
  const ArithmeticFailure := "from_string: conversion failed for arithmetic type"

  /** `std::tolower` in the "C" locale. */
  function ToLowerChar(c: char): (l: char)
    ensures 'A' <= c <= 'Z' ==> l as int == c as int + 32
    ensures !('A' <= c <= 'Z') ==> l == c
  {
    if 'A' <= c <= 'Z' then (c as int + 32) as char else c
  }

  /** Every character through `tolower`, as `std::transform` does. */
  function ToLower(s: string): (r: string)
    ensures |r| == |s| && forall i :: 0 <= i < |s| ==> r[i] == ToLowerChar(s[i])
  {
    seq(|s|, i requires 0 <= i < |s| => ToLowerChar(s[i]))
  }

  /** Lowering twice is lowering once. */
  lemma ToLowerIdempotent(s: string)
    ensures ToLower(ToLower(s)) == ToLower(s)
  {
    var l := ToLower(s);
    forall i | 0 <= i < |s| ensures ToLowerChar(l[i]) == l[i] {
    }
  }

  /** `iequals`: equal lengths and equal characters after `tolower`. */
  predicate IEquals(a: string, b: string)
  {
    |a| == |b| && forall i :: 0 <= i < |a| ==> ToLowerChar(a[i]) == ToLowerChar(b[i])
  }

  /** `iequals` is equality of the lowered strings, hence an equivalence. */
  lemma IEqualsIsLowerEquality(a: string, b: string, c: string)
    ensures IEquals(a, b) <==> ToLower(a) == ToLower(b)
    ensures IEquals(a, a)
    ensures IEquals(a, b) ==> IEquals(b, a)
    ensures IEquals(a, b) && IEquals(b, c) ==> IEquals(a, c)
  {
    if ToLower(a) == ToLower(b) {
      forall i | 0 <= i < |a| ensures ToLowerChar(a[i]) == ToLowerChar(b[i]) {
        assert ToLower(a)[i] == ToLower(b)[i];
      }
    }
  }

  /** The library's own example: "Hello" matches "heLLo" but not "World". */
  lemma IEqualsExample()
    ensures IEquals("Hello", "heLLo")
    ensures !IEquals("Hello", "World")
  {
    assert ToLowerChar("Hello"[0]) != ToLowerChar("World"[0]);
  }

  // ---------------------------------------------------------------------------
  // Digits

  /** `c` is a digit of base 10 or 16 (either case for the letters). */
  predicate IsDigit(c: char, base: nat)
  {
    ('0' <= c <= '9') || (base == 16 && (('a' <= c <= 'f') || ('A' <= c <= 'F')))
  }

  function DigitValue(c: char): (v: nat)
    ensures '0' <= c <= '9' ==> v < 10
    ensures v < 16
  {
    if '0' <= c <= '9' then c as int - '0' as int
    else if 'a' <= c <= 'f' then c as int - 'a' as int + 10
    else if 'A' <= c <= 'F' then c as int - 'A' as int + 10
    else 0
  }

  /** The length of the run of `base` digits that starts `s`. */
  function DigitRun(s: string, base: nat): (n: nat)
    ensures n <= |s|
    ensures forall k :: 0 <= k < n ==> IsDigit(s[k], base)
    ensures n < |s| ==> !IsDigit(s[n], base)
  {
    if s == [] || !IsDigit(s[0], base) then 0 else 1 + DigitRun(s[1..], base)
  }

  /** The value of a digit string, most significant digit first. */
  function ValueOf(ds: string, base: nat): nat
  {
    if ds == [] then 0 else ValueOf(ds[..|ds| - 1], base) * base + DigitValue(ds[|ds| - 1])
  }

  function DigitChar(d: nat): (c: char)
    requires d < 10
    ensures IsDigit(c, 10) && DigitValue(c) == d
  {
    ('0' as int + d) as char
  }

  /** The decimal spelling of `n` without leading zeros, as `fmt` and
      `std::to_string` print it. */
  function NatToString(n: nat): (s: string)
    ensures |s| > 0
    decreases n
  {
    if n < 10 then [DigitChar(n)] else NatToString(n / 10) + [DigitChar(n % 10)]
  }

  /** A signed integer in decimal, with a leading '-' when negative. */
  function IntToString(n: int): (s: string)
    ensures |s| > 0
  {
    if n < 0 then "-" + NatToString(-n) else NatToString(n)
  }

  /** The decimal spelling is all digits and reads back as `n`. */
  lemma {:induction false} NatToStringReadsBack(n: nat)
    ensures forall k :: 0 <= k < |NatToString(n)| ==> IsDigit(NatToString(n)[k], 10)
    ensures ValueOf(NatToString(n), 10) == n
    decreases n
  {
    var s := NatToString(n);
    if n < 10 {
      assert s[..0] == [];
    } else {
      NatToStringReadsBack(n / 10);
      assert s[..|s| - 1] == NatToString(n / 10);
    }
  }

  /** A run of digits followed by nothing, or by a non-digit, is read whole. */
  lemma {:induction false} DigitRunOfDigits(ds: string, t: string, base: nat)
    requires forall k :: 0 <= k < |ds| ==> IsDigit(ds[k], base)
    requires t == [] || !IsDigit(t[0], base)
    ensures DigitRun(ds + t, base) == |ds|
  {
    if ds != [] {
      assert (ds + t)[1..] == ds[1..] + t;
      DigitRunOfDigits(ds[1..], t, base);
    }
  }

  // ---------------------------------------------------------------------------
  // from_string

  /** `from_string<int>`: `std::from_chars` reads an optional '-' and the
      longest run of decimal digits that follows; no digits, or a value that
      does not fit in `int`, is an error, which `from_string` turns into a
      `std::runtime_error`.  Characters after the digits are ignored. */
  function FromStringInt(s: string): (r: Result<int>)
    ensures r.Ok? ==> IntMin <= r.value <= IntMax
    ensures r.Err? ==> r.error == RuntimeError(ArithmeticFailure)
    ensures s == [] || !(IsDigit(s[0], 10) || s[0] == '-') ==> r.Err?
  {
    var negative := |s| > 0 && s[0] == '-';
    var rest := if negative then s[1..] else s;
    var n := DigitRun(rest, 10);
    if n == 0 then Err(RuntimeError(ArithmeticFailure))
    else
      var magnitude: int := ValueOf(rest[..n], 10);
      var value: int := if negative then -magnitude else magnitude;
      if value < IntMin || value > IntMax then Err(RuntimeError(ArithmeticFailure))
      else Ok(value)
  }

  /** Every `int` printed in decimal converts back, and so does its decimal
      spelling followed by anything that does not start with a digit. */
  lemma FromStringIntReadsBack(n: int, t: string)
    requires IntMin <= n <= IntMax
    requires t == [] || !IsDigit(t[0], 10)
    ensures FromStringInt(IntToString(n) + t) == Ok(n)
  {
    var m: nat := if n < 0 then -n else n;
    var ds := NatToString(m);
    NatToStringReadsBack(m);
    DigitRunOfDigits(ds, t, 10);
    assert (ds + t)[..|ds|] == ds;
    if n < 0 {
      assert (IntToString(n) + t)[1..] == ds + t;
    } else {
      assert DigitChar(0) == '0';
    }
  }

  /** The library's own examples: "42" is 42 and "abc" is an error. */
  lemma FromStringIntExamples()
    ensures FromStringInt("42") == Ok(42)
    ensures FromStringInt("abc").Err?
  {
    FromStringIntReadsBack(42, "");
    assert NatToString(4) == "4" && NatToString(42) == "42";
    assert IntToString(42) + "" == "42";
  }

  /** `from_string<std::string>`: the text itself. */
  function FromStringText(s: string): (r: string)
    ensures r == s
  {
    s
  }
}
