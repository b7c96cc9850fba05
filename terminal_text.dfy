/** The text utilities of the terminal helpers (src/common/terminal.cpp and
    src/common/terminal.hpp): splitting on a delimiter, splitting outside
    brackets, trimming, `${NAME}` expansion, shell quoting, command lines,
    yes/no toggles and environment lookups with a default.

    The process environment is a `map<string, string>` parameter: a name that
    is not a key is an unset variable. */
module TerminalText {
  import opened Wrappers
  import opened StringUtil

  /** `std::find` / `std::string::find` of one character from `start`:
      the first position at or after `start` holding `c`, or `|s|` (npos). */
  function FindFrom(s: string, c: char, start: nat): (pos: nat)
    requires start <= |s|
    ensures start <= pos <= |s|
    ensures forall k :: start <= k < pos ==> s[k] != c
    ensures pos < |s| ==> s[pos] == c
    decreases |s| - start
  {
    if start == |s| || s[start] == c then start else FindFrom(s, c, start + 1)
  }

  /** The search finds the first occurrence of `c`. */
  lemma FindFirst(s: string, c: char, i: nat)
    requires i < |s| && s[i] == c
    requires forall k :: 0 <= k < i ==> s[k] != c
    ensures FindFrom(s, c, 0) == i
  {
  }

  // ---------------------------------------------------------------------------
  // Flat splitting

  /** No character of `t` is `d`. */
  predicate Free(t: string, d: char)
  {
    forall k :: 0 <= k < |t| ==> t[k] != d
  }

  /** Without an occurrence the search reaches the end. */
  lemma FindNone(s: string, c: char)
    requires Free(s, c)
    ensures FindFrom(s, c, 0) == |s|
  {
  }

  /** The pieces of `s` between occurrences of `d`, empty pieces included. */
  function Split(s: string, d: char): (parts: seq<string>)
    ensures |parts| >= 1
    decreases |s|
  {
    if s == [] then [[]]
    else
      var rest := Split(s[1..], d);
      if s[0] == d then [[]] + rest else [[s[0]] + rest[0]] + rest[1..]
  }

  /** The pieces with `d` between consecutive ones. */
  function Join(parts: seq<string>, d: char): string
    decreases |parts|
  {
    if parts == [] then []
    else if |parts| == 1 then parts[0]
    else parts[0] + [d] + Join(parts[1..], d)
  }

  /** The number of occurrences of `d` in `s`. */
  function Count(s: string, d: char): nat
  {
    if s == [] then 0 else (if s[0] == d then 1 else 0) + Count(s[1..], d)
  }

  /** Splitting yields one more piece than there are delimiters. */
  lemma {:induction false} SplitCount(s: string, d: char)
    ensures |Split(s, d)| == Count(s, d) + 1
    decreases |s|
  {
    if s != [] {
      SplitCount(s[1..], d);
    }
  }

  /** No piece holds the delimiter. */
  lemma {:induction false} SplitPiecesFree(s: string, d: char)
    ensures forall i :: 0 <= i < |Split(s, d)| ==> Free(Split(s, d)[i], d)
    decreases |s|
  {
    if s != [] && s[0] != d {
      var rest := Split(s[1..], d);
      SplitPiecesFree(s[1..], d);
      var parts := Split(s, d);
      forall i | 0 <= i < |parts| ensures Free(parts[i], d) {
        if i == 0 {
          assert Free(rest[0], d);
        } else {
          assert parts[i] == rest[i];
        }
      }
    } else if s != [] {
      SplitPiecesFree(s[1..], d);
      assert Split(s, d)[1..] == Split(s[1..], d);
    }
  }

  /** Joining the pieces with the delimiter gives the input back. */
  lemma {:induction false} JoinOfSplit(s: string, d: char)
    ensures Join(Split(s, d), d) == s
    decreases |s|
  {
    if s != [] {
      var rest := Split(s[1..], d);
      JoinOfSplit(s[1..], d);
      if s[0] == d {
        assert Split(s, d)[1..] == rest;
        assert Join(Split(s, d), d) == [] + [d] + Join(rest, d);
      } else {
        var parts := Split(s, d);
        assert parts[1..] == rest[1..];
        if |rest| == 1 {
          assert Join(rest, d) == rest[0];
        } else {
          assert Join(rest, d) == rest[0] + [d] + Join(rest[1..], d);
          assert Join(parts, d) == [s[0]] + rest[0] + [d] + Join(rest[1..], d);
        }
      }
    }
  }

  /** A delimiter-free prefix extends the first piece. */
  lemma {:induction false} SplitFreePrefix(t: string, rest: string, d: char)
    requires Free(t, d)
    ensures Split(t + rest, d) == [t + Split(rest, d)[0]] + Split(rest, d)[1..]
    decreases |t|
  {
    if t != [] {
      assert (t + rest)[1..] == t[1..] + rest;
      SplitFreePrefix(t[1..], rest, d);
      assert [t[0]] + (t[1..] + Split(rest, d)[0]) == t + Split(rest, d)[0];
    } else {
      var r := Split(rest, d);
      assert t + rest == rest && t + r[0] == r[0];
      assert [r[0]] + r[1..] == r;
    }
  }

  /** Joining delimiter-free pieces and splitting again gives the pieces back. */
  lemma {:induction false} JoinSplit(parts: seq<string>, d: char)
    requires |parts| >= 1
    requires forall i :: 0 <= i < |parts| ==> Free(parts[i], d)
    ensures Split(Join(parts, d), d) == parts
    decreases |parts|
  {
    if |parts| == 1 {
      SplitFreePrefix(parts[0], [], d);
      assert Split([], d) == [[]];
      assert parts[0] + [] == parts[0];
      assert parts == [parts[0]];
    } else {
      var tail := Join(parts[1..], d);
      JoinSplit(parts[1..], d);
      assert Join(parts, d) == parts[0] + ([d] + tail);
      SplitFreePrefix(parts[0], [d] + tail, d);
      assert ([d] + tail)[1..] == tail;
      assert Split([d] + tail, d) == [[]] + parts[1..];
      assert parts[0] + [] == parts[0];
    }
  }

  /** Where `find` stops, the split of the rest starts a new piece. */
  lemma SplitAtFind(s: string, d: char, start: nat)
    requires start <= |s|
    ensures FindFrom(s, d, start) == |s| ==> Split(s[start..], d) == [s[start..]]
    ensures FindFrom(s, d, start) < |s| ==>
      Split(s[start..], d) == [s[start..FindFrom(s, d, start)]] + Split(s[FindFrom(s, d, start) + 1..], d)
  {
    var pos := FindFrom(s, d, start);
    var head, tail := s[start..pos], s[pos..];
    assert s[start..] == head + tail;
    SplitFreePrefix(head, tail, d);
    if pos == |s| {
      assert tail == [] && head + [] == head;
    } else {
      assert tail[1..] == s[pos + 1..] && head + [] == head;
      assert Split(tail, d) == [[]] + Split(s[pos + 1..], d);
    }
  }

  /** The first piece from `start` runs up to the next delimiter or the end. */
  lemma SplitPiece(s: string, d: char, start: nat)
    requires start <= |s|
    ensures Split(s[start..], d) == [s[start..FindFrom(s, d, start)]] +
      (if FindFrom(s, d, start) < |s| then Split(s[FindFrom(s, d, start) + 1..], d) else [])
  {
    SplitAtFind(s, d, start);
    if FindFrom(s, d, start) == |s| {
      assert s[start..|s|] == s[start..];
      assert [s[start..]] + [] == [s[start..]];
    }
  }

  lemma AppendAssoc<T>(a: seq<T>, b: seq<T>, c: seq<T>)
    ensures a + b + c == a + (b + c)
  {
  }

  /** `splitString`: repeated `find` from the last delimiter, the tail
      after the last one pushed as the final piece. */
  method SplitString(s: string, d: char) returns (parts: seq<string>)
    ensures parts == Split(s, d)
  {
    parts := [];
    var start := 0;
    while true
      invariant start <= |s|
      invariant parts + Split(s[start..], d) == Split(s, d)
      decreases |s| - start
    {
      var pos := FindFrom(s, d, start);
      SplitAtFind(s, d, start);
      if pos == |s| {
        parts := parts + [s[start..]];
        break;
      }
      AppendAssoc(parts, [s[start..pos]], Split(s[pos + 1..], d));
      parts := parts + [s[start..pos]];
      start := pos + 1;
    }
  }

  /** The examples: "a;b" and ";;" keep their empty pieces. */
  lemma SplitExamples()
    ensures Split("a;b", ';') == ["a", "b"]
    ensures Split(";;", ';') == ["", "", ""]
    ensures Split("", ';') == [""]
  {
    JoinSplit(["a", "b"], ';');
    assert Join(["a", "b"], ';') == "a;b";
    JoinSplit(["", "", ""], ';');
    assert Join(["", "", ""], ';') == ";;";
  }

  // ---------------------------------------------------------------------------
  // Splitting outside brackets

  predicate IsOpener(c: char)
  {
    c == '(' || c == '[' || c == '{'
  }

  predicate IsCloser(c: char)
  {
    c == ')' || c == ']' || c == '}'
  }

  /** The nesting after `c`: openers go in, closers come out, and a closer
      with nothing open is ignored. */
  function NextLevel(level: nat, c: char): (next: nat)
    ensures IsOpener(c) ==> next == level + 1
    ensures IsCloser(c) ==> next == if level > 0 then level - 1 else 0
    ensures !IsOpener(c) && !IsCloser(c) ==> next == level
  {
    if IsOpener(c) then level + 1
    else if IsCloser(c) && level > 0 then level - 1
    else level
  }

  /** The tokens `splitTopLevel` produces from `s` once it has reached
      nesting `level` with `current` collected so far. */
  function TopLevel(s: string, d: char, level: nat, current: string): seq<string>
    decreases |s|
  {
    if s == [] then (if current == [] then [] else [current])
    else
      var next := NextLevel(level, s[0]);
      if s[0] == d && next == 0 then [current] + TopLevel(s[1..], d, 0, [])
      else TopLevel(s[1..], d, next, current + [s[0]])
  }

  /** `splitTopLevel`: one pass over the characters. */
  method SplitTopLevel(s: string, d: char) returns (result: seq<string>)
    ensures result == TopLevel(s, d, 0, [])
  {
    result := [];
    var current: string := [];
    var level: nat := 0;
    for i := 0 to |s|
      invariant result + TopLevel(s[i..], d, level, current) == TopLevel(s, d, 0, [])
    {
      var c := s[i];
      assert s[i..][1..] == s[i + 1..];
      if IsOpener(c) {
        level := level + 1;
      } else if IsCloser(c) {
        if level > 0 {
          level := level - 1;
        }
      }
      if c == d && level == 0 {
        result := result + [current];
        current := [];
      } else {
        current := current + [c];
      }
    }
    if current != [] {
      result := result + [current];
    }
  }

  /** The pieces without a final empty one. */
  function DropTrailingEmpty(parts: seq<string>): seq<string>
  {
    if parts != [] && parts[|parts| - 1] == [] then parts[..|parts| - 1] else parts
  }

  predicate BracketFree(s: string)
  {
    forall k :: 0 <= k < |s| ==> !IsOpener(s[k]) && !IsCloser(s[k])
  }

  /** One step of `TopLevelFlat` at a delimiter. */
  lemma TopLevelFlatDelimiter(s: string, d: char, current: string)
    requires s != [] && s[0] == d && !IsOpener(d) && !IsCloser(d)
    requires TopLevel(s[1..], d, 0, []) == DropTrailingEmpty(Split(s[1..], d))
    ensures TopLevel(s, d, 0, current) ==
      DropTrailingEmpty([current + Split(s, d)[0]] + Split(s, d)[1..])
  {
    var rest := Split(s[1..], d);
    calc {
      TopLevel(s, d, 0, current);
      [current] + TopLevel(s[1..], d, 0, []);
      [current] + DropTrailingEmpty(rest);
      DropTrailingEmpty([current] + rest);
      { assert Split(s, d) == [[]] + rest;
        assert ([[]] + rest)[1..] == rest;
        assert current + [] == current; }
      DropTrailingEmpty([current + Split(s, d)[0]] + Split(s, d)[1..]);
    }
  }

  /** One step of `TopLevelFlat` at any other character. */
  lemma TopLevelFlatOther(s: string, d: char, current: string)
    requires s != [] && s[0] != d && !IsOpener(s[0]) && !IsCloser(s[0])
    requires TopLevel(s[1..], d, 0, current + [s[0]]) ==
      DropTrailingEmpty([current + [s[0]] + Split(s[1..], d)[0]] + Split(s[1..], d)[1..])
    ensures TopLevel(s, d, 0, current) ==
      DropTrailingEmpty([current + Split(s, d)[0]] + Split(s, d)[1..])
  {
    var rest := Split(s[1..], d);
    assert Split(s, d) == [[s[0]] + rest[0]] + rest[1..];
    assert current + [s[0]] + rest[0] == current + ([s[0]] + rest[0]);
  }

  /** Without brackets, the top-level split is the flat split with its final
      piece dropped when that piece is empty. */
  lemma {:induction false} TopLevelFlat(s: string, d: char, current: string)
    requires BracketFree(s)
    ensures TopLevel(s, d, 0, current) ==
      DropTrailingEmpty([current + Split(s, d)[0]] + Split(s, d)[1..])
    decreases |s|
  {
    if s == [] {
      assert current + [] == current;
    } else {
      assert BracketFree(s[1..]) by {
        forall k | 0 <= k < |s| - 1 ensures !IsOpener(s[1..][k]) && !IsCloser(s[1..][k]) {
          assert s[1..][k] == s[k + 1];
        }
      }
      assert !IsOpener(s[0]) && !IsCloser(s[0]);
      var rest := Split(s[1..], d);
      if s[0] == d {
        TopLevelFlat(s[1..], d, []);
        assert [] + rest[0] == rest[0];
        assert [rest[0]] + rest[1..] == rest;
        TopLevelFlatDelimiter(s, d, current);
      } else {
        TopLevelFlat(s[1..], d, current + [s[0]]);
        TopLevelFlatOther(s, d, current);
      }
    }
  }

  /** Joining the tokens gives back the input, or the input without the
      final delimiter that closed an empty last token; there are no tokens
      exactly when nothing was collected and nothing is left. */
  lemma {:induction false} TopLevelJoin(s: string, d: char, level: nat, current: string)
    ensures TopLevel(s, d, level, current) == [] <==> current == [] && s == []
    ensures Join(TopLevel(s, d, level, current), d) == current + s ||
            Join(TopLevel(s, d, level, current), d) + [d] == current + s
    decreases |s|
  {
    if s == [] {
      assert current + s == current;
      if current == [] {
        assert TopLevel(s, d, level, current) == [];
      } else {
        assert TopLevel(s, d, level, current) == [current];
        assert Join([current], d) == current;
      }
    } else {
      var next := NextLevel(level, s[0]);
      assert current + s == current + [s[0]] + s[1..];
      if s[0] == d && next == 0 {
        var tokens := TopLevel(s[1..], d, 0, []);
        TopLevelJoin(s[1..], d, 0, []);
        if tokens == [] {
          assert Join([current], d) == current;
        } else {
          assert ([current] + tokens)[1..] == tokens;
          var j := Join(tokens, d);
          assert Join([current] + tokens, d) == current + [d] + j;
          assert current + s == current + [d] + s[1..];
          assert current + [d] + j + [d] == current + [d] + (j + [d]);
        }
      } else {
        TopLevelJoin(s[1..], d, next, current + [s[0]]);
      }
    }
  }

  /** Inside brackets nothing is split until a closing bracket appears. */
  lemma {:induction false} NestedNeverSplits(s: string, d: char, level: nat, current: string)
    requires level > 0
    requires forall k :: 0 <= k < |s| ==> !IsCloser(s[k])
    requires current + s != []
    ensures TopLevel(s, d, level, current) == [current + s]
    decreases |s|
  {
    if s == [] {
      assert current + s == current;
    } else {
      NestedNeverSplits(s[1..], d, NextLevel(level, s[0]), current + [s[0]]);
      assert current + [s[0]] + s[1..] == current + s;
    }
  }

  /** A token without the delimiter and without brackets is returned whole. */
  lemma {:induction false} TopLevelSingle(a: string, d: char, current: string)
    requires Free(a, d) && BracketFree(a)
    ensures TopLevel(a, d, 0, current) == if current + a == [] then [] else [current + a]
    decreases |a|
  {
    if a == [] {
      assert current + a == current;
    } else {
      assert a[1..][0..] == a[1..];
      assert Free(a[1..], d) && BracketFree(a[1..]) by {
        forall k | 0 <= k < |a| - 1 ensures a[1..][k] == a[k + 1] { }
      }
      assert !IsOpener(a[0]) && !IsCloser(a[0]);
      TopLevelSingle(a[1..], d, current + [a[0]]);
      assert current + [a[0]] + a[1..] == current + a;
    }
  }

  /** A delimiter at nesting level 0 ends the token collected before it. */
  lemma {:induction false} TopLevelHead(a: string, b: string, d: char, current: string)
    requires Free(a, d) && BracketFree(a) && !IsOpener(d) && !IsCloser(d)
    ensures TopLevel(a + [d] + b, d, 0, current) == [current + a] + TopLevel(b, d, 0, [])
    decreases |a|
  {
    var s := a + [d] + b;
    if a == [] {
      assert s[0] == d && s[1..] == b;
      assert current + a == current;
    } else {
      assert s[0] == a[0] && s[1..] == a[1..] + [d] + b;
      assert Free(a[1..], d) && BracketFree(a[1..]) by {
        forall k | 0 <= k < |a| - 1 ensures a[1..][k] == a[k + 1] { }
      }
      assert !IsOpener(a[0]) && !IsCloser(a[0]) && a[0] != d;
      TopLevelHead(a[1..], b, d, current + [a[0]]);
      assert current + [a[0]] + a[1..] == current + a;
    }
  }

  /** A comma inside parentheses does not split. */
  lemma TopLevelNestedExample()
    ensures TopLevel("(,),x", ',', 0, []) == ["(,)", "x"]
  {
    assert TopLevel("", ',', 0, "x") == ["x"];
    assert TopLevel("x", ',', 0, "") == ["x"] by {
      assert "x"[1..] == "" && "" + ['x'] == "x";
    }
    assert TopLevel(",x", ',', 0, "(,)") == ["(,)", "x"] by {
      assert ",x"[1..] == "x";
    }
    assert TopLevel("),x", ',', 1, "(,") == ["(,)", "x"] by {
      assert "),x"[1..] == ",x" && "(," + [')'] == "(,)";
    }
    assert TopLevel(",),x", ',', 1, "(") == ["(,)", "x"] by {
      assert ",),x"[1..] == "),x" && "(" + [','] == "(,";
    }
    assert TopLevel("(,),x", ',', 0, "") == ["(,)", "x"] by {
      assert "(,),x"[1..] == ",),x" && "" + ['('] == "(";
    }
  }


  /** A closing bracket with nothing open is kept as text. */
  lemma TopLevelCloserExample()
    ensures TopLevel("),x", ',', 0, []) == [")", "x"]
  {
    assert TopLevel("", ',', 0, "x") == ["x"];
    assert TopLevel("x", ',', 0, "") == ["x"] by {
      assert "x"[1..] == "" && "" + ['x'] == "x";
    }
    assert TopLevel(",x", ',', 0, ")") == [")", "x"] by {
      assert ",x"[1..] == "x";
    }
    assert TopLevel("),x", ',', 0, "") == [")", "x"] by {
      assert "),x"[1..] == ",x" && "" + [')'] == ")";
    }
  }

  /** A trailing delimiter leaves no empty token. */
  lemma TopLevelTrailingExample()
    ensures TopLevel("a,", ',', 0, []) == ["a"]
  {
    assert TopLevel("", ',', 0, "") == [];
    assert TopLevel(",", ',', 0, "a") == ["a"] by {
      assert ","[1..] == "";
    }
    assert TopLevel("a,", ',', 0, "") == ["a"] by {
      assert "a,"[1..] == "," && "" + ['a'] == "a";
    }
  }

  // ---------------------------------------------------------------------------
  // Trimming

  /** The characters `trim` removes. */
  predicate IsTrimSpace(c: char)
  {
    c == ' ' || c == '\t' || c == '\n' || c == '\r'
  }

  predicate AllSpace(t: string)
  {
    forall k :: 0 <= k < |t| ==> IsTrimSpace(t[k])
  }

  /** `find_first_not_of`, with `|s|` for npos. */
  function FirstNonSpace(s: string): (i: nat)
    ensures i <= |s| && forall k :: 0 <= k < i ==> IsTrimSpace(s[k])
    ensures i < |s| ==> !IsTrimSpace(s[i])
  {
    if s == [] || !IsTrimSpace(s[0]) then 0
    else
      var i := 1 + FirstNonSpace(s[1..]);
      assert forall k :: 1 <= k < i ==> s[k] == s[1..][k - 1];
      i
  }

  /** One past `find_last_not_of`, with 0 for npos. */
  function EndNonSpace(s: string): (j: nat)
    ensures j <= |s| && forall k :: j <= k < |s| ==> IsTrimSpace(s[k])
    ensures j > 0 ==> !IsTrimSpace(s[j - 1])
  {
    if s == [] || !IsTrimSpace(s[|s| - 1]) then |s|
    else
      var j := EndNonSpace(s[..|s| - 1]);
      assert forall k :: j <= k < |s| - 1 ==> s[k] == s[..|s| - 1][k];
      j
  }

  /** `trim`: the text between the first and the last character that is not
      one of " \t\n\r", or "" when there is none. */
  function Trim(s: string): (t: string)
    ensures t == [] <==> AllSpace(s)
    ensures t != [] ==> !IsTrimSpace(t[0]) && !IsTrimSpace(t[|t| - 1])
  {
    var start := FirstNonSpace(s);
    if start == |s| then []
    else
      var end := EndNonSpace(s);
      s[start..end]
  }

  /** Removing any padding of spaces from text that neither starts nor ends
      with one gives that text: `trim` keeps the largest such infix. */
  lemma TrimOfPadded(pre: string, core: string, post: string)
    requires AllSpace(pre) && AllSpace(post)
    requires core != [] ==> !IsTrimSpace(core[0]) && !IsTrimSpace(core[|core| - 1])
    ensures Trim(pre + core + post) == core
  {
    var s := pre + core + post;
    if core == [] {
      assert AllSpace(s) by {
        forall k | 0 <= k < |s| ensures IsTrimSpace(s[k]) {
          if k >= |pre| { assert s[k] == post[k - |pre|]; }
        }
      }
    } else {
      var start := FirstNonSpace(s);
      var end := EndNonSpace(s);
      var last := |pre| + |core|;
      assert s[|pre|] == core[0] && s[last - 1] == core[|core| - 1];
      assert forall k :: 0 <= k < |pre| ==> IsTrimSpace(s[k]) by {
        forall k | 0 <= k < |pre| ensures IsTrimSpace(s[k]) { assert s[k] == pre[k]; }
      }
      assert forall k :: last <= k < |s| ==> IsTrimSpace(s[k]) by {
        forall k | last <= k < |s| ensures IsTrimSpace(s[k]) { assert s[k] == post[k - last]; }
      }
      assert start == |pre| && end == last;
      assert s[start..end] == core;
    }
  }

  /** Trimming twice is trimming once. */
  lemma TrimIdempotent(s: string)
    ensures Trim(Trim(s)) == Trim(s)
  {
    var t := Trim(s);
    TrimOfPadded([], t, []);
    assert [] + t + [] == t;
  }

  // ---------------------------------------------------------------------------
  // ${NAME} expansion

  /** The end of a `${NAME}` reference whose `$` is at `k` and whose NAME is
      set: the position of its closing brace. */
  function DefinedReference(s: string, env: map<string, string>, k: nat): (close: Option<nat>)
    requires k < |s| && s[k] == '$'
    ensures close.Some? ==>
      (k + 2 <= close.value < |s| && s[close.value] == '}' &&
       s[k + 1] == '{' && s[k + 2..close.value] in env && Free(s[k + 2..close.value], '}'))
  {
    if k + 1 < |s| && s[k + 1] == '{' then
      var close := FindFrom(s, '}', k + 2);
      if close < |s| && s[k + 2..close] in env then
        Some(close)
      else None
    else None
  }

  /** The expansion of `s` from position `k`: a `$` that opens a reference
      to a set variable is replaced with its value together with the braces
      and the name; every other character is copied. */
  function ExpandFrom(s: string, env: map<string, string>, k: nat): string
    requires k <= |s|
    decreases |s| - k
  {
    if k == |s| then []
    else if s[k] != '$' then [s[k]] + ExpandFrom(s, env, k + 1)
    else match DefinedReference(s, env, k)
      case Some(close) => env[s[k + 2..close]] + ExpandFrom(s, env, close + 1)
      case None => ['$'] + ExpandFrom(s, env, k + 1)
  }

  function Expand(s: string, env: map<string, string>): string
  {
    ExpandFrom(s, env, 0)
  }

  /** A character other than `$` is copied. */
  lemma CopyChar(s: string, env: map<string, string>, k: nat)
    requires k < |s| && s[k] != '$'
    ensures ExpandFrom(s, env, k) == [s[k]] + ExpandFrom(s, env, k + 1)
  {
  }

  /** A stretch without `$` is copied as it is. */
  lemma {:induction false} Verbatim(s: string, env: map<string, string>, a: nat, b: nat)
    requires a <= b <= |s|
    requires forall k :: a <= k < b ==> s[k] != '$'
    ensures ExpandFrom(s, env, a) == s[a..b] + ExpandFrom(s, env, b)
    decreases b - a
  {
    if a < b {
      Verbatim(s, env, a + 1, b);
      calc {
        ExpandFrom(s, env, a);
        { CopyChar(s, env, a); }
        [s[a]] + ExpandFrom(s, env, a + 1);
        [s[a]] + (s[a + 1..b] + ExpandFrom(s, env, b));
        { assert s[a..b] == [s[a]] + s[a + 1..b]; }
        s[a..b] + ExpandFrom(s, env, b);
      }
    } else {
      assert s[a..b] == [];
    }
  }

  /** The check after a `$` at `dollar`: a `{`, a closing `}` further on
      and a set variable between them.  Returns where scanning resumes and,
      when the reference is replaced, the value that replaces it. */
  method ReadReference(s: string, env: map<string, string>, dollar: nat)
    returns (resume: nat, replacement: Option<string>)
    requires dollar < |s| && s[dollar] == '$'
    ensures dollar < resume <= |s|
    ensures replacement.Some? <==> DefinedReference(s, env, dollar).Some?
    ensures replacement.Some? ==>
      resume == DefinedReference(s, env, dollar).value + 1 &&
      replacement.value == env[s[dollar + 2..resume - 1]]
    ensures replacement.None? ==> forall k :: dollar + 1 <= k < resume ==> s[k] != '$'
  {
    resume := dollar + 1;
    replacement := None;
    if resume != |s| && s[resume] == '{' {
      resume := resume + 1;
      var endEnv := FindFrom(s, '}', resume);
      if endEnv != |s| {
        var name := s[resume..endEnv];
        if name in env {
          resume := endEnv + 1;
          replacement := Some(env[name]);
        }
      }
    }
  }

  /** A `$` that does not open a reference to a set variable is copied. */
  lemma KeepReference(s: string, env: map<string, string>, dollar: nat)
    requires dollar < |s| && s[dollar] == '$'
    requires DefinedReference(s, env, dollar).None?
    ensures ExpandFrom(s, env, dollar) == ['$'] + ExpandFrom(s, env, dollar + 1)
  {
  }

  /** After a `$` whose reference is not replaced, the `$` and the text up to
      the next `$` are copied. */
  lemma CopyDollar(s: string, env: map<string, string>, dollar: nat, resume: nat, next: nat)
    requires dollar < resume <= next <= |s| && s[dollar] == '$'
    requires DefinedReference(s, env, dollar).None?
    requires forall k :: dollar + 1 <= k < resume ==> s[k] != '$'
    requires forall k :: resume <= k < next ==> s[k] != '$'
    ensures ExpandFrom(s, env, dollar) == s[dollar..next] + ExpandFrom(s, env, next)
  {
    calc {
      ExpandFrom(s, env, dollar);
      { KeepReference(s, env, dollar); }
      ['$'] + ExpandFrom(s, env, dollar + 1);
      { Verbatim(s, env, dollar + 1, next); }
      ['$'] + (s[dollar + 1..next] + ExpandFrom(s, env, next));
      (['$'] + s[dollar + 1..next]) + ExpandFrom(s, env, next);
      { assert s[dollar..next] == ['$'] + s[dollar + 1..next]; }
      s[dollar..next] + ExpandFrom(s, env, next);
    }
  }

  /** A reference to a set variable expands to the variable's value. */
  lemma ReplaceReference(s: string, env: map<string, string>, dollar: nat, close: nat)
    requires dollar < |s| && s[dollar] == '$'
    requires DefinedReference(s, env, dollar) == Some(close)
    ensures ExpandFrom(s, env, dollar) == env[s[dollar + 2..close]] + ExpandFrom(s, env, close + 1)
  {
  }

  /** One round of `expand_environment` at the `$` at `dollar`: the text
      that replaces a reference to a set variable (none otherwise), where
      copying resumes, and the next `$`. */
  method ExpandAt(s: string, env: map<string, string>, dollar: nat)
    returns (piece: string, marker: nat, next: nat)
    requires dollar < |s| && s[dollar] == '$'
    ensures dollar <= marker <= next <= |s| && dollar < next
    ensures next < |s| ==> s[next] == '$'
    ensures ExpandFrom(s, env, dollar) == piece + ExpandFrom(s, env, marker)
    ensures ExpandFrom(s, env, marker) == s[marker..next] + ExpandFrom(s, env, next)
  {
    var resume, replacement := ReadReference(s, env, dollar);
    next := FindFrom(s, '$', resume);
    if replacement.Some? {
      ReplaceReference(s, env, dollar, resume - 1);
      piece := replacement.value;
      marker := resume;
      assert ExpandFrom(s, env, dollar) == piece + ExpandFrom(s, env, marker);
      Verbatim(s, env, resume, next);
    } else {
      piece := [];
      marker := dollar;
      assert piece + ExpandFrom(s, env, marker) == ExpandFrom(s, env, dollar);
      CopyDollar(s, env, dollar, resume, next);
    }
  }

  /** Regrouping the text produced so far around one round. */
  lemma Regroup(done: string, copied: string, x: string, piece: string, y: string,
                between: string, z: string, e: string)
    requires done + copied + x == e && x == piece + y && y == between + z
    ensures (done + copied + piece) + between + z == e
  {
  }

  /** `expand_environment`: jump from `$` to `$`, copying the text in
      between, and replace each `${NAME}` whose NAME is set. */
  method ExpandEnvironment(s: string, env: map<string, string>) returns (result: string)
    ensures result == Expand(s, env)
  {
    result := [];
    var i := FindFrom(s, '$', 0);
    var marker: nat := 0;
    Verbatim(s, env, 0, i);
    ghost var expanded := Expand(s, env);
    while i != |s|
      invariant marker <= i <= |s|
      invariant i < |s| ==> s[i] == '$'
      invariant result + s[marker..i] + ExpandFrom(s, env, i) == expanded
      decreases |s| - i
    {
      var piece, resume, next := ExpandAt(s, env, i);
      Regroup(result, s[marker..i], ExpandFrom(s, env, i), piece, ExpandFrom(s, env, resume),
              s[resume..next], ExpandFrom(s, env, next), expanded);
      result := result + s[marker..i] + piece;
      marker := resume;
      i := next;
    }
    assert ExpandFrom(s, env, i) == [];
    result := result + s[marker..i];
  }

  /** Text without `$` is left as it is. */
  lemma ExpandNoDollar(s: string, env: map<string, string>)
    requires Free(s, '$')
    ensures Expand(s, env) == s
  {
    Verbatim(s, env, 0, |s|);
    assert s[0..|s|] + [] == s;
  }

  /** With no variable set, every text is left as it is. */
  lemma {:induction false} ExpandEmptyEnvironment(s: string, k: nat)
    requires k <= |s|
    ensures ExpandFrom(s, map[], k) == s[k..]
    decreases |s| - k
  {
    if k < |s| {
      ExpandEmptyEnvironment(s, k + 1);
      assert s[k..] == [s[k]] + s[k + 1..];
    }
  }

  /** A reference to a set variable is replaced by its value; one to an
      unset variable is kept as written. */
  lemma ExpandReference(name: string, rest: string, env: map<string, string>)
    requires Free(name, '}') && Free(rest, '$')
    ensures name in env ==> Expand("${" + name + "}" + rest, env) == env[name] + rest
    ensures name !in env ==> Free(name, '$') ==>
      Expand("${" + name + "}" + rest, env) == "${" + name + "}" + rest
  {
    var s := "${" + name + "}" + rest;
    var close := |name| + 2;
    assert s[close] == '}';
    assert forall k :: 2 <= k < close ==> s[k] == name[k - 2];
    assert FindFrom(s, '}', 2) == close;
    assert s[2..close] == name;
    if name in env {
      Verbatim(s, env, close + 1, |s|);
      assert s[close + 1..|s|] == rest;
    } else if Free(name, '$') {
      Verbatim(s, env, 1, |s|);
      assert s[1..] == s[1..|s|] + [];
      assert s == ['$'] + s[1..];
    }
  }

  /** The example "${HOME}/x" with HOME set to "/root". */
  lemma ExpandExample()
    ensures Expand("${HOME}/x", map["HOME" := "/root"]) == "/root/x"
  {
    ExpandReference("HOME", "/x", map["HOME" := "/root"]);
    assert "${" + "HOME" + "}" + "/x" == "${HOME}/x";
  }

  // ---------------------------------------------------------------------------
  // Shell quoting

  /** The characters that make `quote_shell` quote: space, tab, the
      brackets `()[]`, `*`, backslash and double quote. */
  predicate IsShellSpecial(c: char)
  {
    c == ' ' || c == '\t' || c == '(' || c == ')' || c == '[' || c == ']' ||
    c == '*' || c == '\\' || c == '"'
  }

  predicate NeedsQuote(s: string)
  {
    exists k :: 0 <= k < |s| && IsShellSpecial(s[k])
  }

  /** A backslash or a double quote gets a backslash in front. */
  function EscapeChar(c: char): (e: string)
    ensures |e| >= 1 && e[|e| - 1] == c
  {
    if c == '\\' then "\\\\" else if c == '"' then "\\\"" else [c]
  }

  function Escape(s: string): (e: string)
    ensures |e| >= |s|
  {
    if s == [] then [] else EscapeChar(s[0]) + Escape(s[1..])
  }

  lemma {:induction false} EscapeConcat(a: string, b: string)
    ensures Escape(a + b) == Escape(a) + Escape(b)
    decreases |a|
  {
    if a != [] {
      assert (a + b)[1..] == a[1..] + b;
      EscapeConcat(a[1..], b);
    } else {
      assert a + b == b;
    }
  }

  /** The shell's reading of an escaped text: a backslash takes the next
      character literally. */
  function Unescape(t: string): string
    decreases |t|
  {
    if t == [] then []
    else if t[0] == '\\' && |t| >= 2 then [t[1]] + Unescape(t[2..])
    else [t[0]] + Unescape(t[1..])
  }

  /** Escaping loses nothing: the shell reads back the original text. */
  lemma {:induction false} UnescapeEscape(s: string)
    ensures Unescape(Escape(s)) == s
    decreases |s|
  {
    if s != [] {
      UnescapeEscape(s[1..]);
      var e := Escape(s);
      if s[0] == '\\' || s[0] == '"' {
        assert e[2..] == Escape(s[1..]);
      } else {
        assert e[1..] == Escape(s[1..]);
      }
    }
  }

  /** What `quote_shell` returns. */
  function Quoted(s: string): string
  {
    if NeedsQuote(s) then "\"" + Escape(s) + "\"" else s
  }

  /** `quote_shell`: a text with a special character is escaped character
      by character and put in double quotes; any other is returned as is. */
  method QuoteShell(s: string) returns (r: string)
    ensures r == Quoted(s)
  {
    if NeedsQuote(s) {
      var result := "";
      for i := 0 to |s|
        invariant result == Escape(s[..i])
      {
        var c := s[i];
        EscapeConcat(s[..i], [c]);
        assert s[..i + 1] == s[..i] + [c];
        if c == '\\' {
          result := result + "\\\\";
        } else if c == '"' {
          result := result + "\\\"";
        } else {
          result := result + [c];
        }
      }
      assert s[..|s|] == s;
      r := "\"" + result + "\"";
    } else {
      r := s;
    }
  }

  /** The text comes back unchanged exactly when it has no special
      character; a quoted text is read back as the original. */
  lemma QuotedProperties(s: string)
    ensures Quoted(s) == s <==> !NeedsQuote(s)
    ensures NeedsQuote(s) ==> Unescape(Quoted(s)[1..|Quoted(s)| - 1]) == s
  {
    if NeedsQuote(s) {
      var q := Quoted(s);
      assert |q| > |s|;
      assert q[1..|q| - 1] == Escape(s);
      UnescapeEscape(s);
    }
  }

  /** Text without a backslash or a double quote escapes to itself. */
  lemma {:induction false} EscapeUnchanged(s: string)
    requires forall k :: 0 <= k < |s| ==> s[k] != '\\' && s[k] != '"'
    ensures Escape(s) == s
    decreases |s|
  {
    if s != [] {
      EscapeUnchanged(s[1..]);
    }
  }

  /** Only the middle character of such a text changes when escaped. */
  lemma EscapeOneSpecial(a: string, c: char, b: string)
    requires !NeedsQuote(a) && !NeedsQuote(b)
    ensures Escape(a + [c] + b) == a + (EscapeChar(c) + b)
  {
    assert a + [c] + b == a + ([c] + b);
    EscapeConcat(a, [c] + b);
    assert forall k :: 0 <= k < |a| ==> !IsShellSpecial(a[k]);
    EscapeUnchanged(a);
    assert ([c] + b)[1..] == b;
    assert forall k :: 0 <= k < |b| ==> !IsShellSpecial(b[k]);
    EscapeUnchanged(b);
  }

  /** Text with one special character between two stretches without any
      is put in quotes, and only a backslash or a double quote gains a
      backslash: "needs space" becomes "\"needs space\"", "with\"quote"
      becomes "\"with\\\"quote\"" and "path\\segment" becomes
      "\"path\\\\segment\"". */
  lemma QuotedOneSpecial(a: string, c: char, b: string)
    requires !NeedsQuote(a) && !NeedsQuote(b) && IsShellSpecial(c)
    ensures Quoted(a + [c] + b) == "\"" + a + EscapeChar(c) + b + "\""
  {
    var s := a + [c] + b;
    assert NeedsQuote(s) by {
      assert s[|a|] == c;
    }
    EscapeOneSpecial(a, c, b);
    assert "\"" + (a + (EscapeChar(c) + b)) + "\"" == "\"" + a + EscapeChar(c) + b + "\"";
  }

  // ---------------------------------------------------------------------------
  // Command lines

  function QuotedAll(args: seq<string>): (q: seq<string>)
    ensures |q| == |args| && forall i :: 0 <= i < |args| ==> q[i] == Quoted(args[i])
  {
    seq(|args|, i requires 0 <= i < |args| => Quoted(args[i]))
  }

  lemma {:induction false} JoinSnoc(parts: seq<string>, p: string, d: char)
    requires parts != []
    ensures Join(parts + [p], d) == Join(parts, d) + [d] + p
    decreases |parts|
  {
    if |parts| == 1 {
      assert parts + [p] == [parts[0], p];
    } else {
      assert (parts + [p])[1..] == parts[1..] + [p];
      JoinSnoc(parts[1..], p, d);
    }
  }

  /** `cmdline`: the quoted arguments separated by single spaces. */
  method Cmdline(args: seq<string>) returns (r: string)
    ensures r == Join(QuotedAll(args), ' ')
  {
    r := "";
    if |args| == 0 {
      assert QuotedAll(args) == [];
    } else {
      r := QuoteShell(args[0]);
      assert QuotedAll(args[..1]) == [Quoted(args[0])];
    }
    var i := 1;
    while i < |args|
      invariant 1 <= i && (|args| > 0 ==> i <= |args|)
      invariant |args| > 0 ==> r == Join(QuotedAll(args[..i]), ' ')
      invariant |args| == 0 ==> r == ""
    {
      var q := QuoteShell(args[i]);
      JoinSnoc(QuotedAll(args[..i]), q, ' ');
      assert QuotedAll(args[..i + 1]) == QuotedAll(args[..i]) + [q];
      r := r + [' '] + q;
      i := i + 1;
    }
    if |args| > 0 {
      assert args[..i] == args;
    }
  }

  /** Arguments that need no quoting are recovered by splitting the command
      line at its spaces. */
  lemma CmdlineSplits(args: seq<string>)
    requires |args| >= 1
    requires forall i :: 0 <= i < |args| ==> !NeedsQuote(args[i])
    ensures Split(Join(QuotedAll(args), ' '), ' ') == args
  {
    assert QuotedAll(args) == args;
    forall i | 0 <= i < |args| ensures Free(args[i], ' ') {
      forall k | 0 <= k < |args[i]| ensures args[i][k] != ' ' {
        if args[i][k] == ' ' {
          assert IsShellSpecial(args[i][k]);
        }
      }
    }
    JoinSplit(args, ' ');
  }

  // ---------------------------------------------------------------------------
  // Toggles and environment lookups

  /** The words `toggle` reads as false and as true. */
  predicate NoWord(str: string)
  {
    IEquals(str, "no") || IEquals(str, "false") || IEquals(str, "0")
  }

  predicate YesWord(str: string)
  {
    IEquals(str, "yes") || IEquals(str, "true") || IEquals(str, "1")
  }

  /** No text is both a yes word and a no word. */
  lemma YesNoDisjoint(str: string)
    ensures !(NoWord(str) && YesWord(str))
  {
    if IEquals(str, "0") {
      assert ToLowerChar(str[0]) == '0';
    }
  }

  /** The `toggle` constructor from text: a recognised word decides the
      value, and the empty text or any other text gives the default. */
  function Toggle(str: string, default: bool): (value: bool)
    ensures NoWord(str) ==> !value
    ensures YesWord(str) ==> value
    ensures !NoWord(str) && !YesWord(str) ==> value == default
  {
    YesNoDisjoint(str);
    if str == [] then default
    else if NoWord(str) then false
    else if YesWord(str) then true
    else default
  }

  /** The examples: yes/true/1, no/false/0, "" and "maybe". */
  lemma ToggleExamples()
    ensures Toggle("yes", false) && Toggle("true", false) && Toggle("1", false)
    ensures !Toggle("no", true) && !Toggle("false", true) && !Toggle("0", true)
    ensures !Toggle("", false) && Toggle("", true)
    ensures Toggle("maybe", true) && !Toggle("maybe", false)
  {
    assert ToLowerChar('1') == '1' && ToLowerChar('0') == '0';
    assert ToLowerChar("maybe"[0]) == 'm' && ToLowerChar("false"[0]) == 'f';
    assert !NoWord("maybe") && !YesWord("maybe");
  }

  /** `getenv_or_default<int>`: the value converted, or the default when the
      variable is unset or the conversion fails. */
  function GetenvOrDefaultInt(env: map<string, string>, name: string, default: int): (v: int)
    ensures name !in env ==> v == default
    ensures name in env && FromStringInt(env[name]).Err? ==> v == default
    ensures name in env && FromStringInt(env[name]).Ok? ==> v == FromStringInt(env[name]).value
  {
    if name in env then
      match FromStringInt(env[name])
      case Ok(value) => value
      case Err(_) => default
    else default
  }

  /** A variable that holds the decimal spelling of an `int` yields it. */
  lemma GetenvReadsBack(env: map<string, string>, name: string, n: int, default: int)
    requires IntMin <= n <= IntMax
    requires name in env && env[name] == IntToString(n)
    ensures GetenvOrDefaultInt(env, name, default) == n
  {
    FromStringIntReadsBack(n, "");
    assert IntToString(n) + "" == IntToString(n);
  }

  /** The examples: "42" gives 42, unset gives 5 and "not-a-number" gives 9. */
  lemma GetenvOrDefaultExamples()
    ensures GetenvOrDefaultInt(map["V" := "42"], "V", 7) == 42
    ensures GetenvOrDefaultInt(map[], "V", 5) == 5
    ensures GetenvOrDefaultInt(map["V" := "not-a-number"], "V", 9) == 9
  {
    FromStringIntExamples();
  }

  /** `getenv_or_default` for text: the value, or the default when unset. */
  function GetenvOrDefaultText(env: map<string, string>, name: string, default: string): (v: string)
    ensures name in env ==> v == env[name]
    ensures name !in env ==> v == default
  {
    if name in env then env[name] else default
  }
}
