/** Terminal colours and text attributes (src/common/terminal.hpp and
    src/common/terminal.cpp): the colour tables, the parsers for named,
    `rgb(...)` and `#hex` colours and for attributes, the combination of two
    styles, the ANSI escape sequence a style prints as, and
    `parseTerminalStyle`.

    `ForegroundColor` and `BackgroundColor` name the same seventeen colours
    with different ANSI codes; the model has one `NamedColor` with a code for
    each use.  `ColorAttribute` is an `unsigned` bit mask of which only the
    three enumerator bits can ever be set; it is modelled as `bv3`. */
module TerminalStyle {
  import opened Wrappers
  import opened StringUtil
  import opened TerminalText

  // ---------------------------------------------------------------------------
  // Colour and attribute tables

  datatype NamedColor =
    | Default | Black | Red | Green | Yellow | Blue | Magenta | Cyan | LightGray
    | DarkGray | LightRed | LightGreen | LightYellow | LightBlue | LightMagenta
    | LightCyan | White

  /** The `ForegroundColor` enumerator values. */
  function FgCode(c: NamedColor): nat
  {
    match c
    case Default => 39
    case Black => 30
    case Red => 31
    case Green => 32
    case Yellow => 33
    case Blue => 34
    case Magenta => 35
    case Cyan => 36
    case LightGray => 37
    case DarkGray => 90
    case LightRed => 91
    case LightGreen => 92
    case LightYellow => 93
    case LightBlue => 94
    case LightMagenta => 95
    case LightCyan => 96
    case White => 97
  }

  /** The `BackgroundColor` enumerator values: each is ten above the
      foreground code of the same colour. */
  function BgCode(c: NamedColor): (code: nat)
    ensures code == FgCode(c) + 10
  {
    match c
    case Default => 49
    case Black => 40
    case Red => 41
    case Green => 42
    case Yellow => 43
    case Blue => 44
    case Magenta => 45
    case Cyan => 46
    case LightGray => 47
    case DarkGray => 100
    case LightRed => 101
    case LightGreen => 102
    case LightYellow => 103
    case LightBlue => 104
    case LightMagenta => 105
    case LightCyan => 106
    case White => 107
  }

  /** The colour a foreground code stands for, if any. */
  function FgFromCode(code: int): (c: Option<NamedColor>)
    ensures c.Some? ==> FgCode(c.value) == code
  {
    if code == 39 then Some(Default)
    else if 30 <= code <= 37 then Some([Black, Red, Green, Yellow, Blue, Magenta, Cyan, LightGray][code - 30])
    else if 90 <= code <= 97 then Some([DarkGray, LightRed, LightGreen, LightYellow, LightBlue, LightMagenta, LightCyan, White][code - 90])
    else None
  }

  /** Every foreground code is read back as its colour, and foreground
      and background codes never overlap. */
  lemma FgCodeReadsBack(c: NamedColor)
    ensures FgFromCode(FgCode(c)) == Some(c)
    ensures FgFromCode(BgCode(c)) == None
  {
  }

  /** The name `parseForegroundColor` and `parseBackgroundColor` accept,
      in lower case. */
  function ColorName(c: NamedColor): string
  {
    match c
    case Default => "default"
    case Black => "black"
    case Red => "red"
    case Green => "green"
    case Yellow => "yellow"
    case Blue => "blue"
    case Magenta => "magenta"
    case Cyan => "cyan"
    case LightGray => "lightgray"
    case DarkGray => "darkgray"
    case LightRed => "lightred"
    case LightGreen => "lightgreen"
    case LightYellow => "lightyellow"
    case LightBlue => "lightblue"
    case LightMagenta => "lightmagenta"
    case LightCyan => "lightcyan"
    case White => "white"
  }

  /** The colour whose name is exactly `t`, in the order the parsers try
      the names. */
  function NamedColorOf(t: string): (c: Option<NamedColor>)
    ensures c.Some? ==> ColorName(c.value) == t
  {
    if t == "default" then Some(Default)
    else if t == "black" then Some(Black)
    else if t == "red" then Some(Red)
    else if t == "green" then Some(Green)
    else if t == "yellow" then Some(Yellow)
    else if t == "blue" then Some(Blue)
    else if t == "magenta" then Some(Magenta)
    else if t == "cyan" then Some(Cyan)
    else if t == "lightgray" then Some(LightGray)
    else if t == "darkgray" then Some(DarkGray)
    else if t == "lightred" then Some(LightRed)
    else if t == "lightgreen" then Some(LightGreen)
    else if t == "lightyellow" then Some(LightYellow)
    else if t == "lightblue" then Some(LightBlue)
    else if t == "lightmagenta" then Some(LightMagenta)
    else if t == "lightcyan" then Some(LightCyan)
    else if t == "white" then Some(White)
    else None
  }

  /** Every colour name is found, as that colour: no two names coincide. */
  lemma NamedColorOfName(c: NamedColor)
    ensures NamedColorOf(ColorName(c)) == Some(c)
  {
  }

  /** A text without capital letters is its own lower case. */
  lemma LowerFixed(s: string)
    requires forall k :: 0 <= k < |s| ==> !('A' <= s[k] <= 'Z')
    ensures ToLower(s) == s
  {
  }

  lemma ColorNameLower(c: NamedColor)
    ensures ToLower(ColorName(c)) == ColorName(c)
  {
    var n := ColorName(c);
    assert forall k :: 0 <= k < |n| ==> 'a' <= n[k] <= 'z';
    LowerFixed(n);
  }

  /** `parseForegroundColor` / `parseBackgroundColor`: the trimmed token in
      lower case, compared with each name in turn. */
  function ParseNamedColor(token: string): Option<NamedColor>
  {
    NamedColorOf(ToLower(Trim(token)))
  }

  /** A token names colour `c` exactly when, trimmed, it equals the name of
      `c` ignoring case. */
  lemma ParseNamedColorIff(token: string, c: NamedColor)
    ensures ParseNamedColor(token) == Some(c) <==> IEquals(Trim(token), ColorName(c))
  {
    var n := ColorName(c);
    ColorNameLower(c);
    NamedColorOfName(c);
    IEqualsIsLowerEquality(Trim(token), n, n);
  }

  /** The `ColorAttribute` bits; `None` is the empty mask. */
  datatype Attribute = Bold | Dim | Underline

  function AttrBit(a: Attribute): bv3
  {
    match a
    case Bold => 1
    case Dim => 2
    case Underline => 4
  }

  function AttrName(a: Attribute): string
  {
    match a
    case Bold => "bold"
    case Dim => "dim"
    case Underline => "underline"
  }

  /** `parseColorAttribute`: the trimmed token in lower case, compared with
      each attribute name in turn. */
  function ParseColorAttribute(token: string): (a: Option<Attribute>)
    ensures a.Some? ==> ToLower(Trim(token)) == AttrName(a.value)
  {
    var t := ToLower(Trim(token));
    if t == "bold" then Some(Bold)
    else if t == "dim" then Some(Dim)
    else if t == "underline" then Some(Underline)
    else None
  }

  /** A token names attribute `a` exactly when, trimmed, it equals the name
      of `a` ignoring case. */
  lemma ParseColorAttributeIff(token: string, a: Attribute)
    ensures ParseColorAttribute(token) == Some(a) <==> IEquals(Trim(token), AttrName(a))
  {
    var n := AttrName(a);
    assert forall k :: 0 <= k < |n| ==> 'a' <= n[k] <= 'z';
    LowerFixed(n);
    IEqualsIsLowerEquality(Trim(token), n, n);
  }

  /** The three attribute bits are distinct single bits. */
  lemma AttrBitsDistinct(a: Attribute, b: Attribute)
    ensures AttrBit(a) & AttrBit(b) != 0 <==> a == b
  {
  }

  // ---------------------------------------------------------------------------
  // Styles

  datatype RGBColor = RGBColor(r: int, g: int, b: int)

  /** `FGColor` / `BGColor`: a named colour or an RGB colour. */
  datatype Color = Named(name: NamedColor) | Rgb(rgb: RGBColor)

  datatype Style = Style(fg: Option<Color>, bg: Option<Color>, attrs: bv3)

  /** The default-constructed `TerminalStyle`. */
  const Plain := Style(None, None, 0)

  /** The single-field styles the constructors make. */
  function FgStyle(c: Color): Style { Style(Some(c), None, 0) }
  function BgStyle(c: Color): Style { Style(None, Some(c), 0) }
  function AttrStyle(a: Attribute): Style { Style(None, None, AttrBit(a)) }

  /** `TerminalStyle::operator|`: the colours of `b` where `b` has them,
      otherwise those of `a`, and the attributes of both. */
  function Combine(a: Style, b: Style): Style
  {
    Style(if b.fg.Some? then b.fg else a.fg, if b.bg.Some? then b.bg else a.bg, a.attrs | b.attrs)
  }

  /** `operator|` is associative. */
  lemma CombineAssociative(a: Style, b: Style, c: Style)
    ensures Combine(Combine(a, b), c) == Combine(a, Combine(b, c))
  {
    var x, y, z := a.attrs, b.attrs, c.attrs;
    assert (x | y) | z == x | (y | z);
  }

  /** The plain style is an identity on both sides, and combining a style
      with itself changes nothing. */
  lemma CombineIdentity(a: Style)
    ensures Combine(Plain, a) == a && Combine(a, Plain) == a
    ensures Combine(a, a) == a
  {
    var x := a.attrs;
    assert Combine(Plain, a) == a by { assert 0 | x == x; }
    assert Combine(a, Plain) == a by { assert x | 0 == x; }
    assert Combine(a, a) == a by { assert x | x == x; }
  }

  /** An attribute is set in `a | b` exactly when it is set in `a` or in
      `b`, and a colour of `b` always wins. */
  lemma CombineTakesRight(a: Style, b: Style, x: Attribute)
    ensures Combine(a, b).attrs & AttrBit(x) != 0 <==> a.attrs & AttrBit(x) != 0 || b.attrs & AttrBit(x) != 0
    ensures b.fg.Some? ==> Combine(a, b).fg == b.fg
    ensures b.bg.Some? ==> Combine(a, b).bg == b.bg
    ensures b.fg.None? ==> Combine(a, b).fg == a.fg
    ensures b.bg.None? ==> Combine(a, b).bg == a.bg
  {
  }

  // ---------------------------------------------------------------------------
  // The escape sequence

  const Esc: char := 27 as char

  /** The `ColorAttribute` bits `to_string` reads, in the order it pushes
      their codes (Bold 1, Dim 2, Underline 4). */
  function AttrGroups(attrs: bv3): seq<seq<int>>
  {
    (if attrs & 1 != 0 then [[1]] else []) + (if attrs & 2 != 0 then [[2]] else [])
      + (if attrs & 4 != 0 then [[4]] else [])
  }

  /** The numbers of one colour code: the enumerator value of a named
      colour, or `38;2;r;g;b` (foreground) / `48;2;r;g;b` (background). */
  function ColorGroup(c: Color, foreground: bool): (g: seq<int>)
    ensures |g| >= 1
  {
    match c
    case Named(n) => [if foreground then FgCode(n) else BgCode(n)]
    case Rgb(rgb) => [if foreground then 38 else 48, 2, rgb.r, rgb.g, rgb.b]
  }

  function OptionGroup(c: Option<Color>, foreground: bool): seq<seq<int>>
  {
    if c.Some? then [ColorGroup(c.value, foreground)] else []
  }

  /** The numbers of every entry of `codes`, one sequence per entry:
      attributes, then foreground, then background. */
  function Groups(s: Style): seq<seq<int>>
  {
    AttrGroups(s.attrs) + OptionGroup(s.fg, true) + OptionGroup(s.bg, false)
  }

  /** Integers as `fmt::format("{}")` prints them. */
  function Texts(ns: seq<int>): (ts: seq<string>)
    ensures |ts| == |ns| && forall i :: 0 <= i < |ns| ==> ts[i] == IntToString(ns[i])
  {
    seq(|ns|, i requires 0 <= i < |ns| => IntToString(ns[i]))
  }

  /** The text of one entry of `codes`. */
  function CodeText(g: seq<int>): string
  {
    Join(Texts(g), ';')
  }

  function CodeTexts(gs: seq<seq<int>>): (codes: seq<string>)
    ensures |codes| == |gs| && forall i :: 0 <= i < |gs| ==> codes[i] == CodeText(gs[i])
  {
    seq(|gs|, i requires 0 <= i < |gs| => CodeText(gs[i]))
  }

  /** The `codes` vector of `to_string`. */
  function Codes(s: Style): seq<string>
  {
    CodeTexts(Groups(s))
  }

  /** `TerminalStyle::to_string`: the codes joined with `;` inside
      `ESC [` ... `m`. */
  function ToString(s: Style): string
  {
    [Esc, '['] + Join(Codes(s), ';') + "m"
  }

  /** `color_text`: the style's sequence, the text, then the reset `ESC [0m`. */
  function ColorText(text: string, s: Style): (r: string)
    ensures |r| == |ToString(s)| + |text| + 4
    ensures r[..|ToString(s)|] == ToString(s)
    ensures r[|ToString(s)|..|r| - 4] == text
    ensures r[|r| - 4..] == [Esc, '[', '0', 'm']
  {
    ToString(s) + text + [Esc, '[', '0', 'm']
  }

  /** `color_if`: the coloured text when `b` holds, the text alone otherwise. */
  function ColorIf(text: string, b: bool, s: Style): (r: string)
    ensures b ==> r == ColorText(text, s)
    ensures !b ==> r == text
  {
    if b then ColorText(text, s) else text
  }

  // ---------------------------------------------------------------------------
  // Reading an escape sequence back

  predicate ByteValue(v: int)
  {
    0 <= v <= 255
  }

  predicate WellformedColor(c: Color)
  {
    c.Rgb? ==> ByteValue(c.rgb.r) && ByteValue(c.rgb.g) && ByteValue(c.rgb.b)
  }

  /** A style its escape sequence describes completely: RGB components
      that fit in a byte. */
  predicate Wellformed(s: Style)
  {
    (s.fg.Some? ==> WellformedColor(s.fg.value))
    && (s.bg.Some? ==> WellformedColor(s.bg.value))
  }

  predicate AllDigits(t: string)
  {
    t != [] && forall k :: 0 <= k < |t| ==> IsDigit(t[k], 10)
  }

  /** Each parameter of a sequence as a decimal number. */
  function ReadFields(fs: seq<string>): (r: Option<seq<int>>)
    ensures r.Some? ==> |r.value| == |fs|
  {
    if fs == [] then Some([])
    else if !AllDigits(fs[0]) then None
    else match ReadFields(fs[1..])
      case None => None
      case Some(rest) => Some([ValueOf(fs[0], 10) as int] + rest)
  }

  /** How a terminal applies select-graphic-rendition parameters, for the
      codes `to_string` emits: 1, 2 and 4 set attributes, the foreground
      and background enumerator values select named colours, `38;2;r;g;b`
      and `48;2;r;g;b` select RGB colours; anything else is rejected. */
  function ReadCodes(ns: seq<int>, acc: Style): Option<Style>
    decreases |ns|
  {
    if ns == [] then Some(acc)
    else
      var f := ns[0];
      if f == 1 || f == 2 || f == 4 then ReadCodes(ns[1..], Combine(acc, Style(None, None, BitOf(f))))
      else if FgFromCode(f).Some? then ReadCodes(ns[1..], Combine(acc, FgStyle(Named(FgFromCode(f).value))))
      else if FgFromCode(f - 10).Some? then ReadCodes(ns[1..], Combine(acc, BgStyle(Named(FgFromCode(f - 10).value))))
      else if (f == 38 || f == 48) && |ns| >= 5 && ns[1] == 2
        && ByteValue(ns[2]) && ByteValue(ns[3]) && ByteValue(ns[4]) then
        var c := Rgb(RGBColor(ns[2], ns[3], ns[4]));
        ReadCodes(ns[5..], Combine(acc, if f == 38 then FgStyle(c) else BgStyle(c)))
      else None
  }

  function BitOf(f: int): bv3
  {
    if f == 1 then 1 else if f == 2 then 2 else 4
  }

  /** The style a terminal shows for `ESC [ params m`; empty parameters
      mean the plain style. */
  function ReadSgr(text: string): Option<Style>
  {
    if |text| < 3 || text[0] != Esc || text[1] != '[' || text[|text| - 1] != 'm' then None
    else
      var inner := text[2..|text| - 1];
      if inner == [] then Some(Plain)
      else match ReadFields(Split(inner, ';'))
        case None => None
        case Some(ns) => ReadCodes(ns, Plain)
  }

  function Concat(gs: seq<seq<int>>): seq<int>
    decreases |gs|
  {
    if gs == [] then [] else gs[0] + Concat(gs[1..])
  }

  lemma {:induction false} ConcatAppend(a: seq<seq<int>>, b: seq<seq<int>>)
    ensures Concat(a + b) == Concat(a) + Concat(b)
    decreases |a|
  {
    if a == [] {
      assert a + b == b;
    } else {
      assert (a + b)[1..] == a[1..] + b;
      ConcatAppend(a[1..], b);
      AppendAssoc(a[0], Concat(a[1..]), Concat(b));
    }
  }

  /** Joining two non-empty lists is joining each and putting one delimiter
      between. */
  lemma {:induction false} JoinAppend(a: seq<string>, b: seq<string>, d: char)
    requires |a| >= 1 && |b| >= 1
    ensures Join(a + b, d) == Join(a, d) + [d] + Join(b, d)
    decreases |a|
  {
    if |a| == 1 {
      assert (a + b)[1..] == b;
    } else {
      assert (a + b)[1..] == a[1..] + b;
      JoinAppend(a[1..], b, d);
      assert Join(a + b, d) == a[0] + [d] + (Join(a[1..], d) + [d] + Join(b, d));
    }
  }

  /** A join starts with its first piece. */
  lemma JoinAppendFirst(parts: seq<string>, d: char)
    requires |parts| >= 1
    ensures |Join(parts, d)| >= |parts[0]|
  {
  }

  lemma TextsAppend(x: seq<int>, y: seq<int>)
    ensures Texts(x + y) == Texts(x) + Texts(y)
  {
    assert forall i :: 0 <= i < |x + y| ==> Texts(x + y)[i] == (Texts(x) + Texts(y))[i];
  }

  /** Joining the entries of `codes` is joining all their numbers. */
  lemma {:induction false} JoinGroups(gs: seq<seq<int>>)
    requires forall i :: 0 <= i < |gs| ==> |gs[i]| >= 1
    ensures Join(CodeTexts(gs), ';') == Join(Texts(Concat(gs)), ';')
    ensures gs != [] ==> |Concat(gs)| >= 1
    decreases |gs|
  {
    if gs != [] {
      var g, rest := gs[0], gs[1..];
      JoinGroups(rest);
      if rest == [] {
        assert Concat(gs) == g + [] == g;
        assert CodeTexts(gs) == [CodeText(g)];
        assert Join(CodeTexts(gs), ';') == CodeText(g);
      } else {
        var codes := CodeTexts(gs);
        assert codes[1..] == CodeTexts(rest);
        assert Join(codes, ';') == Join(Texts(g), ';') + [';'] + Join(Texts(Concat(rest)), ';');
        JoinAppend(Texts(g), Texts(Concat(rest)), ';');
        TextsAppend(g, Concat(rest));
        assert Concat(gs) == g + Concat(rest);
      }
    }
  }

  predicate NonNegative(ns: seq<int>)
  {
    forall i :: 0 <= i < |ns| ==> ns[i] >= 0
  }

  /** A non-negative number prints as digits only, so without `;`, and
      reads back as itself. */
  lemma {:induction false} ReadTexts(ns: seq<int>)
    requires NonNegative(ns)
    ensures forall i :: 0 <= i < |ns| ==> Free(Texts(ns)[i], ';')
    ensures ReadFields(Texts(ns)) == Some(ns)
    decreases |ns|
  {
    var ts := Texts(ns);
    forall i | 0 <= i < |ns| ensures Free(ts[i], ';') && AllDigits(ts[i]) && ValueOf(ts[i], 10) == ns[i] {
      NatToStringReadsBack(ns[i]);
    }
    if ns != [] {
      ReadTexts(ns[1..]);
      assert ts[1..] == Texts(ns[1..]);
      assert ns == [ns[0]] + ns[1..];
    }
  }

  /** One attribute code, or none when the bit is clear. */
  lemma ReadBit(m: bv3, k: int, rest: seq<int>, acc: Style)
    requires m == 0 || (m == 1 && k == 1) || (m == 2 && k == 2) || (m == 4 && k == 4)
    ensures ReadCodes((if m != 0 then [k] else []) + rest, acc)
      == ReadCodes(rest, Combine(acc, Style(None, None, m)))
  {
    if m == 0 {
      CombineIdentity(acc);
      assert [] + rest == rest;
    } else {
      var ns := [k] + rest;
      assert ns[1..] == rest;
    }
  }

  /** The three attribute bits of a mask, and their union. */
  lemma AttrMaskParts(attrs: bv3, a: bv3)
    ensures attrs & 1 == 0 || attrs & 1 == 1
    ensures attrs & 2 == 0 || attrs & 2 == 2
    ensures attrs & 4 == 0 || attrs & 4 == 4
    ensures ((a | (attrs & 1)) | (attrs & 2)) | (attrs & 4) == a | attrs
  {
  }

  lemma CombineBits(acc: Style, m1: bv3, m2: bv3, m4: bv3, attrs: bv3)
    requires ((acc.attrs | m1) | m2) | m4 == acc.attrs | attrs
    ensures Combine(Combine(Combine(acc, Style(None, None, m1)), Style(None, None, m2)), Style(None, None, m4))
      == Combine(acc, Style(None, None, attrs))
  {
  }

  lemma ConcatOne(g: seq<int>)
    ensures Concat([g]) == g
  {
    assert [g][1..] == [];
  }

  /** The groups of one bit, flattened. */
  lemma BitGroup(m: bv3, k: int)
    ensures Concat(if m != 0 then [[k]] else []) == (if m != 0 then [k] else [])
  {
    if m != 0 {
      ConcatOne([k]);
    }
  }

  lemma ReadAttrGroups(attrs: bv3, rest: seq<int>, acc: Style)
    ensures ReadCodes(Concat(AttrGroups(attrs)) + rest, acc)
      == ReadCodes(rest, Combine(acc, Style(None, None, attrs)))
  {
    AttrMaskParts(attrs, acc.attrs);
    var m1, m2, m4 := attrs & 1, attrs & 2, attrs & 4;
    var c1 := if m1 != 0 then [1] else [];
    var c2 := if m2 != 0 then [2] else [];
    var c4 := if m4 != 0 then [4] else [];
    var g1: seq<seq<int>> := if m1 != 0 then [[1]] else [];
    var g2: seq<seq<int>> := if m2 != 0 then [[2]] else [];
    var g4: seq<seq<int>> := if m4 != 0 then [[4]] else [];
    assert Concat(AttrGroups(attrs)) + rest == c1 + (c2 + (c4 + rest)) by {
      assert AttrGroups(attrs) == g1 + g2 + g4;
      ConcatAppend(g1 + g2, g4);
      ConcatAppend(g1, g2);
      BitGroup(m1, 1);
      BitGroup(m2, 2);
      BitGroup(m4, 4);
      AppendAssoc(c1, c2, c4);
      AppendAssoc(c1, c2 + c4, rest);
      AppendAssoc(c2, c4, rest);
    }
    ReadBit(m1, 1, c2 + (c4 + rest), acc);
    var a1 := Combine(acc, Style(None, None, m1));
    ReadBit(m2, 2, c4 + rest, a1);
    var a2 := Combine(a1, Style(None, None, m2));
    ReadBit(m4, 4, rest, a2);
    CombineBits(acc, m1, m2, m4, attrs);
  }

  /** One colour code. */
  lemma ReadColorGroup(c: Color, foreground: bool, rest: seq<int>, acc: Style)
    requires WellformedColor(c)
    ensures ReadCodes(ColorGroup(c, foreground) + rest, acc)
      == ReadCodes(rest, Combine(acc, if foreground then FgStyle(c) else BgStyle(c)))
  {
    var g := ColorGroup(c, foreground);
    var ns := g + rest;
    assert ns[|g|..] == rest;
    if c.Named? {
      FgCodeReadsBack(c.name);
      assert ns[1..] == rest;
    } else {
      assert ns[..5] == g;
    }
  }

  lemma OptionGroupRead(c: Option<Color>, foreground: bool, rest: seq<int>, acc: Style)
    requires c.Some? ==> WellformedColor(c.value)
    ensures ReadCodes(Concat(OptionGroup(c, foreground)) + rest, acc)
      == ReadCodes(rest, Combine(acc, Style(if foreground then c else None, if foreground then None else c, 0)))
  {
    if c.Some? {
      ConcatOne(ColorGroup(c.value, foreground));
      ReadColorGroup(c.value, foreground, rest, acc);
    } else {
      CombineIdentity(acc);
      assert [] + rest == rest;
    }
  }

  lemma {:induction false} ConcatNonNegative(gs: seq<seq<int>>)
    requires forall i :: 0 <= i < |gs| ==> NonNegative(gs[i])
    ensures NonNegative(Concat(gs))
    decreases |gs|
  {
    if gs != [] {
      ConcatNonNegative(gs[1..]);
    }
  }

  lemma GroupsNonNegative(s: Style)
    requires Wellformed(s)
    ensures NonNegative(Concat(Groups(s)))
  {
    var gs := Groups(s);
    forall i | 0 <= i < |gs| ensures NonNegative(gs[i]) {
      var g := gs[i];
      assert g in AttrGroups(s.attrs) || g in OptionGroup(s.fg, true) || g in OptionGroup(s.bg, false);
    }
    ConcatNonNegative(gs);
  }

  /** The numbers of a well-formed style's codes, applied to the plain
      style, give the style back. */
  lemma ReadCodesOfStyle(s: Style)
    requires Wellformed(s)
    ensures ReadCodes(Concat(Groups(s)), Plain) == Some(s)
  {
    var a, f, b := AttrGroups(s.attrs), OptionGroup(s.fg, true), OptionGroup(s.bg, false);
    assert Concat(Groups(s)) == Concat(a) + (Concat(f) + (Concat(b) + [])) by {
      ConcatAppend(a + f, b);
      ConcatAppend(a, f);
      AppendAssoc(Concat(a), Concat(f), Concat(b));
    }
    ReadAttrGroups(s.attrs, Concat(f) + (Concat(b) + []), Plain);
    var s1 := Combine(Plain, Style(None, None, s.attrs));
    OptionGroupRead(s.fg, true, Concat(b) + [], s1);
    var s2 := Combine(s1, Style(s.fg, None, 0));
    OptionGroupRead(s.bg, false, [], s2);
    assert Combine(s2, Style(None, s.bg, 0)) == s by {
      CombineIdentity(Style(None, None, s.attrs));
      CombineIdentity(Style(s.fg, None, s.attrs));
    }
  }

  lemma ToStringShape(s: Style)
    ensures |ToString(s)| >= 3
    ensures ToString(s)[0] == Esc && ToString(s)[1] == '[' && ToString(s)[|ToString(s)| - 1] == 'm'
    ensures ToString(s)[2..|ToString(s)| - 1] == Join(Codes(s), ';')
  {
  }

  /** The parameters of a non-empty sequence are the numbers of the codes. */
  lemma ReadCodeFields(s: Style)
    requires Wellformed(s) && Groups(s) != []
    ensures Join(Codes(s), ';') != []
    ensures ReadFields(Split(Join(Codes(s), ';'), ';')) == Some(Concat(Groups(s)))
  {
    var gs := Groups(s);
    var ns := Concat(gs);
    assert forall i :: 0 <= i < |gs| ==> |gs[i]| >= 1;
    JoinGroups(gs);
    GroupsNonNegative(s);
    var ts := Texts(ns);
    ReadTexts(ns);
    JoinSplit(ts, ';');
    assert |ts[0]| >= 1;
    JoinAppendFirst(ts, ';');
  }

  /** A terminal reading the escape sequence of a well-formed style shows
      exactly that style: `to_string` loses nothing. */
  lemma SgrRoundTrip(s: Style)
    requires Wellformed(s)
    ensures ReadSgr(ToString(s)) == Some(s)
  {
    ToStringShape(s);
    if Groups(s) == [] {
      assert Join(Codes(s), ';') == [];
      assert s == Plain by {
        AttrMaskParts(s.attrs, 0);
      }
    } else {
      ReadCodeFields(s);
      ReadCodesOfStyle(s);
    }
  }

  // ---------------------------------------------------------------------------
  // std::stoi

  /** `isspace` in the C locale. */
  predicate IsCSpace(c: char)
  {
    c == ' ' || c == '\t' || c == '\n' || c == '\r' || c == 11 as char || c == 12 as char
  }

  /** The number of white-space characters `strtol` skips. */
  function LeadingSpace(s: string): (n: nat)
    ensures n <= |s|
    ensures forall k :: 0 <= k < n ==> IsCSpace(s[k])
    ensures n < |s| ==> !IsCSpace(s[n])
  {
    if s == [] || !IsCSpace(s[0]) then 0 else 1 + LeadingSpace(s[1..])
  }

  /** `std::stoi(s, nullptr, base)` for base 10 and 16, with both of its
      exceptions (`invalid_argument` when no digit is read, `out_of_range`
      when the value does not fit in `int`) as `None`: `strtol` skips white
      space, reads an optional sign, in base 16 an optional `0x` or `0X`
      before a digit, then the longest run of digits; the rest is ignored. */
  function Stoi(s: string, base: nat): (r: Option<int>)
    requires base == 10 || base == 16
    ensures r.Some? ==> IntMin <= r.value <= IntMax
  {
    var t := s[LeadingSpace(s)..];
    var negative := |t| > 0 && t[0] == '-';
    var u := if |t| > 0 && (t[0] == '-' || t[0] == '+') then t[1..] else t;
    ConvertDigits(DropHexPrefix(u, base), base, negative)
  }

  /** `0x` or `0X` is skipped in base 16 when a digit follows it. */
  function DropHexPrefix(u: string, base: nat): string
  {
    if base == 16 && |u| >= 3 && u[0] == '0' && (u[1] == 'x' || u[1] == 'X') && IsDigit(u[2], 16)
    then u[2..] else u
  }

  /** The leading digits of `v` with the sign applied, if there are any
      and the value fits in `int`. */
  function ConvertDigits(v: string, base: nat, negative: bool): (r: Option<int>)
    ensures r.Some? ==> IntMin <= r.value <= IntMax
  {
    var n := DigitRun(v, base);
    if n == 0 then None
    else
      var magnitude: int := ValueOf(v[..n], base);
      var value := if negative then -magnitude else magnitude;
      if value < IntMin || value > IntMax then None else Some(value)
  }

  /** A decimal number converts back to itself, whatever non-digit text
      follows it. */
  lemma StoiReadsBack(n: nat, t: string)
    requires n <= IntMax
    requires t == [] || !IsDigit(t[0], 10)
    ensures Stoi(NatToString(n) + t, 10) == Some(n)
  {
    var ds := NatToString(n);
    NatToStringReadsBack(n);
    DigitRunOfDigits(ds, t, 10);
    assert (ds + t)[..|ds|] == ds;
    assert !IsCSpace((ds + t)[0]);
  }

  // ---------------------------------------------------------------------------
  // parseRGBColor

  /** What one comma-separated piece contributes. */
  datatype Piece = Blank | Value(v: int) | Invalid

  /** A piece is trimmed; blank it adds nothing, otherwise `stoi` must
      convert it. */
  function PieceOf(p: string): Piece
  {
    var t := Trim(p);
    if t == [] then Blank
    else match Stoi(t, 10)
      case None => Invalid
      case Some(v) => Value(v)
  }

  function Pieces(parts: seq<string>): (ps: seq<Piece>)
    ensures |ps| == |parts| && forall i :: 0 <= i < |parts| ==> ps[i] == PieceOf(parts[i])
  {
    seq(|parts|, i requires 0 <= i < |parts| => PieceOf(parts[i]))
  }

  /** The values `vs` collected so far, followed by those of the remaining
      pieces; one invalid piece rejects the colour. */
  function CollectFrom(vs: seq<int>, ps: seq<Piece>): Option<seq<int>>
    decreases |ps|
  {
    if ps == [] then Some(vs)
    else match ps[0]
      case Blank => CollectFrom(vs, ps[1..])
      case Invalid => None
      case Value(v) => CollectFrom(vs + [v], ps[1..])
  }

  /** The values of the comma-separated pieces, in order. */
  function CollectValues(parts: seq<string>): Option<seq<int>>
  {
    CollectFrom([], Pieces(parts))
  }

  predicate AllBytes(vs: seq<int>)
  {
    forall i :: 0 <= i < |vs| ==> ByteValue(vs[i])
  }

  /** `parseRGBColor`: `rgb(` and `)` around exactly three values, each in
      [0, 255]. */
  function ParseRGB(token: string): (c: Option<RGBColor>)
    ensures c.Some? ==> WellformedColor(Rgb(c.value))
  {
    if |token| < 5 || token[..4] != "rgb(" || token[|token| - 1] != ')' then None
    else match CollectValues(Split(token[4..|token| - 1], ','))
      case None => None
      case Some(vs) => if |vs| == 3 && AllBytes(vs) then Some(RGBColor(vs[0], vs[1], vs[2])) else None
  }

  /** The piece of `inner` from `start` up to the next comma or the end,
      and the position of that comma (`|inner|` when there is none): the
      next of the pieces `Split` gives. */
  method NextPiece(inner: string, start: nat, ghost parts: seq<string>, ghost i: nat)
    returns (part: string, commaPos: nat)
    requires start <= |inner| && i < |parts| && Split(inner[start..], ',') == parts[i..]
    ensures start <= commaPos <= |inner| && part == parts[i]
    ensures commaPos == |inner| ==> i + 1 == |parts|
    ensures commaPos < |inner| ==> Split(inner[commaPos + 1..], ',') == parts[i + 1..]
  {
    commaPos := FindFrom(inner, ',', start);
    part := inner[start..commaPos];
    SplitPiece(inner, ',', start);
    assert parts[i + 1..] == parts[i..][1..];
  }

  /** The first piece is collected first. */
  lemma CollectCons(vs: seq<int>, ps: seq<Piece>, i: nat)
    requires i < |ps|
    ensures CollectFrom(vs, ps[i..]) ==
      match ps[i]
      case Blank => CollectFrom(vs, ps[i + 1..])
      case Invalid => None
      case Value(v) => CollectFrom(vs + [v], ps[i + 1..])
  {
    assert ps[i..][1..] == ps[i + 1..];
  }

  /** The pieces of `parts`, known one index at a time, as the comma loop
      reads them. */
  lemma PiecesByIndex(parts: seq<string>) returns (ps: seq<Piece>)
    ensures |ps| == |parts|
    ensures forall k {:trigger PieceOf(parts[k])} :: 0 <= k < |parts| ==> ps[k] == PieceOf(parts[k])
  {
    ps := Pieces(parts);
  }

  lemma PiecesAgree(ps: seq<Piece>, parts: seq<string>)
    requires |ps| == |parts|
    requires forall k {:trigger PieceOf(parts[k])} :: 0 <= k < |parts| ==> ps[k] == PieceOf(parts[k])
    ensures ps == Pieces(parts)
  {
  }

  /** One piece of the comma loop: trimmed and, unless blank, converted. */
  method ReadPiece(part: string) returns (piece: Piece)
    ensures piece == PieceOf(part)
  {
    var trimmed := Trim(part);
    if trimmed == [] {
      return Blank;
    }
    var v := Stoi(trimmed, 10);
    if v.None? {
      return Invalid;
    }
    return Value(v.value);
  }

  /** The comma loop of `parseRGBColor`: each piece up to the next comma
      (the last one up to the end) is trimmed and, unless blank, converted;
      a failed conversion makes the colour invalid. */
  method CollectRGBValues(inner: string) returns (r: Option<seq<int>>)
    ensures r == CollectValues(Split(inner, ','))
  {
    var values: seq<int> := [];
    var start := 0;
    ghost var parts := Split(inner, ',');
    ghost var ps := PiecesByIndex(parts);
    ghost var i := 0;
    assert inner[0..] == inner && ps[0..] == ps;
    while true
      invariant start <= |inner| && i < |parts|
      invariant Split(inner[start..], ',') == parts[i..]
      invariant CollectFrom(values, ps[i..]) == CollectFrom([], ps)
      decreases |inner| - start
    {
      var part, commaPos := NextPiece(inner, start, parts, i);
      var piece := ReadPiece(part);
      CollectCons(values, ps, i);
      if piece.Invalid? {
        PiecesAgree(ps, parts);
        return None;
      } else if piece.Value? {
        values := values + [piece.v];
      }
      if commaPos == |inner| {
        assert ps[i + 1..] == [];
        break;
      }
      start := commaPos + 1;
      i := i + 1;
    }
    PiecesAgree(ps, parts);
    return Some(values);
  }

  /** `parseRGBColor`: the prefix and suffix checks, the comma loop, then
      the count and range checks. */
  method ParseRGBColor(token: string) returns (c: Option<RGBColor>)
    ensures c == ParseRGB(token)
  {
    if |token| < 5 || token[..4] != "rgb(" || token[|token| - 1] != ')' {
      return None;
    }
    var collected := CollectRGBValues(token[4..|token| - 1]);
    if collected.None? {
      return None;
    }
    var values := collected.value;
    if |values| != 3 {
      return None;
    }
    var inRange := AllInByteRange(values);
    if !inRange {
      return None;
    }
    return Some(RGBColor(values[0], values[1], values[2]));
  }

  /** The range loop of `parseRGBColor`: every value lies in [0, 255]. */
  method AllInByteRange(values: seq<int>) returns (ok: bool)
    ensures ok <==> AllBytes(values)
  {
    for i := 0 to |values|
      invariant forall k :: 0 <= k < i ==> ByteValue(values[k])
    {
      if values[i] < 0 || values[i] > 255 {
        return false;
      }
    }
    return true;
  }

  /** `rgb(r,g,b)` in decimal. */
  function RgbText(c: RGBColor): string
    requires WellformedColor(Rgb(c))
  {
    "rgb(" + Join([NatToString(c.r), NatToString(c.g), NatToString(c.b)], ',') + ")"
  }

  /** A run of decimal digits holds no comma and no padding. */
  lemma DigitsPiece(ds: string)
    requires ds != [] && forall k :: 0 <= k < |ds| ==> IsDigit(ds[k], 10)
    ensures Free(ds, ',') && Trim(ds) == ds
  {
    assert IsDigit(ds[0], 10) && IsDigit(ds[|ds| - 1], 10);
    TrimUnpadded(ds);
  }

  /** A decimal number is trimmed already and converts back to itself. */
  lemma NumberPiece(n: nat)
    requires n <= IntMax
    ensures Free(NatToString(n), ',')
    ensures Trim(NatToString(n)) == NatToString(n)
    ensures Stoi(Trim(NatToString(n)), 10) == Some(n)
  {
    var ds := NatToString(n);
    NatToStringReadsBack(n);
    DigitsPiece(ds);
    assert Stoi(ds, 10) == Some(n) by {
      StoiReadsBack(n, []);
      assert ds + [] == ds;
    }
  }

  function NumberTexts(ns: seq<nat>): (ts: seq<string>)
    ensures |ts| == |ns| && forall i :: 0 <= i < |ns| ==> ts[i] == NatToString(ns[i])
  {
    seq(|ns|, i requires 0 <= i < |ns| => NatToString(ns[i]))
  }

  /** Decimal pieces are comma-free. */
  lemma NumbersFree(ns: seq<nat>)
    requires forall i :: 0 <= i < |ns| ==> ns[i] <= IntMax
    ensures forall i :: 0 <= i < |ns| ==> Free(NumberTexts(ns)[i], ',')
  {
    forall i | 0 <= i < |ns| ensures Free(NumberTexts(ns)[i], ',') {
      NumberPiece(ns[i]);
    }
  }

  function Values(ns: seq<int>): (ps: seq<Piece>)
    ensures |ps| == |ns| && forall i :: 0 <= i < |ns| ==> ps[i] == Value(ns[i])
  {
    seq(|ns|, i requires 0 <= i < |ns| => Value(ns[i]))
  }

  /** Pieces that are all values collect to those values, after those
      already collected. */
  lemma {:induction false} CollectValuesOnly(vs: seq<int>, ns: seq<int>)
    ensures CollectFrom(vs, Values(ns)) == Some(vs + ns)
    decreases |ns|
  {
    if ns == [] {
      assert vs + ns == vs;
    } else {
      assert Values(ns)[1..] == Values(ns[1..]);
      CollectValuesOnly(vs + [ns[0]], ns[1..]);
      assert vs + [ns[0]] + ns[1..] == vs + ns;
    }
  }

  /** Decimal numbers in `int` range are pieces with their own values. */
  lemma NumbersConvert(ns: seq<nat>)
    requires forall i :: 0 <= i < |ns| ==> ns[i] <= IntMax
    ensures Pieces(NumberTexts(ns)) == Values(ns)
  {
    forall i | 0 <= i < |ns| ensures PieceOf(NumberTexts(ns)[i]) == Value(ns[i]) {
      NumberPiece(ns[i]);
    }
  }

  /** Decimal numbers joined with commas read back as those numbers. */
  lemma NumbersRead(ns: seq<nat>)
    requires |ns| >= 1 && forall i :: 0 <= i < |ns| ==> ns[i] <= IntMax
    ensures CollectValues(Split(Join(NumberTexts(ns), ','), ',')) == Some(ns)
  {
    NumbersFree(ns);
    JoinSplit(NumberTexts(ns), ',');
    NumbersConvert(ns);
    CollectValuesOnly([], ns);
    assert [] + ns == ns;
  }

  /** Every colour written as `rgb(r,g,b)` parses back to itself. */
  lemma ParseRGBText(c: RGBColor)
    requires WellformedColor(Rgb(c))
    ensures ParseRGB(RgbText(c)) == Some(c)
  {
    var ns: seq<nat> := [c.r, c.g, c.b];
    var inner := Join(NumberTexts(ns), ',');
    assert NumberTexts(ns) == [NatToString(c.r), NatToString(c.g), NatToString(c.b)];
    NumbersRead(ns);
    var token := RgbText(c);
    assert token == "rgb(" + inner + ")";
    assert token[..4] == "rgb(" && token[4..|token| - 1] == inner;
    assert AllBytes(ns);
  }

  // ---------------------------------------------------------------------------
  // parseHexColor

  /** Three converted components, or `None` when any conversion failed. */
  function Rgb3(r: Option<int>, g: Option<int>, b: Option<int>): Option<RGBColor>
  {
    if r.Some? && g.Some? && b.Some? then Some(RGBColor(r.value, g.value, b.value)) else None
  }

  /** `parseHexColor` as written: after `#`, three characters are each
      doubled, or six characters are taken in pairs, and every pair goes
      through `std::stoi(pair, nullptr, 16)`, which also accepts a sign,
      leading white space and trailing junk. */
  function ParseHexAsWritten(token: string): Option<RGBColor>
  {
    if token == [] || token[0] != '#' then None
    else
      var hex := token[1..];
      if |hex| == 3 then
        Rgb3(Stoi([hex[0], hex[0]], 16), Stoi([hex[1], hex[1]], 16), Stoi([hex[2], hex[2]], 16))
      else if |hex| == 6 then
        Rgb3(Stoi(hex[0..2], 16), Stoi(hex[2..4], 16), Stoi(hex[4..6], 16))
      else None
  }

  /** The value of one or two hexadecimal digits. */
  lemma HexDigitsValue(hi: char, lo: char)
    ensures ValueOf([hi], 16) == DigitValue(hi)
    ensures ValueOf([hi, lo], 16) == DigitValue(hi) * 16 + DigitValue(lo)
  {
    assert [hi][..0] == [];
    assert [hi, lo][..1] == [hi];
  }

  /** A sign in front of one hexadecimal digit is read by `stoi`. */
  lemma StoiSignedDigit(d: char)
    requires IsDigit(d, 16)
    ensures Stoi(['-', d], 16) == Some(0 - DigitValue(d))
  {
    var t := ['-', d];
    assert LeadingSpace(t) == 0;
    assert t[0..] == t && t[1..] == [d];
    assert DropHexPrefix([d], 16) == [d];
    assert DigitRun([d], 16) == 1 by {
      assert [d][1..] == [];
    }
    assert [d][..1] == [d];
    HexDigitsValue(d, d);
  }

  /** A minus sign as the first character after `#` passes the as-written
      parser and gives a negative red component, which no terminal accepts
      and which `parseRGBColor` would reject; "#-10000" is one such token
      (`d` = '1', `rest` = "0000").  `HexSignRejected` shows the corrected
      parser refuses it. */
  lemma HexSignAsWritten(d: char, rest: string)
    requires IsDigit(d, 16) && DigitValue(d) > 0
    requires |rest| == 4 && forall k :: 0 <= k < 4 ==> IsDigit(rest[k], 16)
    ensures ParseHexAsWritten(['#', '-', d] + rest).Some?
    ensures ParseHexAsWritten(['#', '-', d] + rest).value.r == 0 - DigitValue(d) < 0
  {
    var token := ['#', '-', d] + rest;
    var hex := token[1..];
    assert token[0] == '#' && hex == ['-', d] + rest;
    assert Stoi(hex[0..2], 16) == Some(0 - DigitValue(d)) by {
      assert hex[0..2] == ['-', d];
      StoiSignedDigit(d);
    }
    assert Stoi(hex[2..4], 16).Some? by {
      assert hex[2..4] == [rest[0], rest[1]];
      StoiHexPair(rest[0], rest[1]);
    }
    assert Stoi(hex[4..6], 16).Some? by {
      assert hex[4..6] == [rest[2], rest[3]];
      StoiHexPair(rest[2], rest[3]);
    }
  }

  lemma HexSignRejected(d: char, rest: string)
    requires |rest| == 4
    ensures ParseHexColor(['#', '-', d] + rest) == None
  {
    var token := ['#', '-', d] + rest;
    assert token[1..][0] == '-';
  }

  /** Two hexadecimal digits, most significant first. */
  function HexPair(hi: char, lo: char): (v: Option<int>)
    ensures v.Some? ==> ByteValue(v.value)
  {
    if IsDigit(hi, 16) && IsDigit(lo, 16) then Some(DigitValue(hi) * 16 + DigitValue(lo)) else None
  }

  /** `parseHexColor` as evidently intended: only hexadecimal digits after
      `#`, so every component is in [0, 255]. */
  function ParseHexColor(token: string): (c: Option<RGBColor>)
    ensures c.Some? ==> WellformedColor(Rgb(c.value))
  {
    if token == [] || token[0] != '#' then None
    else
      var hex := token[1..];
      if |hex| == 3 then Rgb3(HexPair(hex[0], hex[0]), HexPair(hex[1], hex[1]), HexPair(hex[2], hex[2]))
      else if |hex| == 6 then Rgb3(HexPair(hex[0], hex[1]), HexPair(hex[2], hex[3]), HexPair(hex[4], hex[5]))
      else None
  }

  /** On two hexadecimal digits `stoi` agrees with `HexPair`. */
  lemma StoiHexPair(hi: char, lo: char)
    requires IsDigit(hi, 16) && IsDigit(lo, 16)
    ensures Stoi([hi, lo], 16) == HexPair(hi, lo)
  {
    var t := [hi, lo];
    assert LeadingSpace(t) == 0;
    assert t[0..] == t;
    assert DropHexPrefix(t, 16) == t;
    assert DigitRun(t, 16) == 2 by {
      assert t[1..] == [lo] && [lo][1..] == [];
    }
    assert t[..2] == t;
    HexDigitsValue(hi, lo);
  }

  /** Where every character after `#` is a hexadecimal digit, the parser as
      written and the corrected one agree; they differ only on tokens the
      corrected one rejects. */
  lemma ParseHexAgrees(token: string)
    requires |token| >= 1 && forall k :: 1 <= k < |token| ==> IsDigit(token[k], 16)
    ensures ParseHexAsWritten(token) == ParseHexColor(token)
  {
    var hex := token[1..];
    if |hex| == 3 {
      StoiHexPair(hex[0], hex[0]);
      StoiHexPair(hex[1], hex[1]);
      StoiHexPair(hex[2], hex[2]);
    } else if |hex| == 6 {
      assert hex[0..2] == [hex[0], hex[1]] && hex[2..4] == [hex[2], hex[3]] && hex[4..6] == [hex[4], hex[5]];
      StoiHexPair(hex[0], hex[1]);
      StoiHexPair(hex[2], hex[3]);
      StoiHexPair(hex[4], hex[5]);
    }
  }

  /** The upper-case hexadecimal digit of `d`. */
  function HexDigit(d: nat): (c: char)
    requires d < 16
    ensures IsDigit(c, 16) && DigitValue(c) == d
  {
    if d < 10 then ('0' as int + d) as char else ('A' as int + d - 10) as char
  }

  function HexByte(v: int): string
    requires ByteValue(v)
  {
    [HexDigit(v / 16), HexDigit(v % 16)]
  }

  /** Every colour written as `#RRGGBB` parses back to itself. */
  lemma ParseHexText(c: RGBColor)
    requires WellformedColor(Rgb(c))
    ensures ParseHexColor("#" + HexByte(c.r) + HexByte(c.g) + HexByte(c.b)) == Some(c)
  {
    var token := "#" + HexByte(c.r) + HexByte(c.g) + HexByte(c.b);
    assert token[1..] == HexByte(c.r) + HexByte(c.g) + HexByte(c.b);
  }

  /** The short form `#RGB` doubles each digit: 17 times its value. */
  lemma ParseHexShort(r: nat, g: nat, b: nat)
    requires r < 16 && g < 16 && b < 16
    ensures ParseHexColor(['#', HexDigit(r), HexDigit(g), HexDigit(b)]) == Some(RGBColor(17 * r, 17 * g, 17 * b))
  {
  }

  // ---------------------------------------------------------------------------
  // parseTerminalStyle

  predicate StartsWithRgb(t: string)
  {
    |t| >= 4 && t[..4] == "rgb("
  }

  function ColorStyle(c: Color, foreground: bool): Style
  {
    if foreground then FgStyle(c) else BgStyle(c)
  }

  /** The colour a token names: `rgb(...)`, `#...`, or a colour name. */
  function TokenColor(token: string): Option<Color>
  {
    if StartsWithRgb(token) then
      var c := ParseRGB(token);
      if c.Some? then Some(Rgb(c.value)) else None
    else if token != [] && token[0] == '#' then
      var c := ParseHexColor(token);
      if c.Some? then Some(Rgb(c.value)) else None
    else
      var n := ParseNamedColor(token);
      if n.Some? then Some(Named(n.value)) else None
  }

  /** What a trimmed, non-empty token adds for its target: a colour when
      the target is `fg` or `bg` and the token is one, otherwise an
      attribute when the token is one, otherwise nothing. */
  function TokenPiece(target: string, token: string): Option<Style>
  {
    var c := if target == "fg" || target == "bg" then TokenColor(token) else None;
    if c.Some? then Some(ColorStyle(c.value, target == "fg"))
    else
      var a := ParseColorAttribute(token);
      if a.Some? then Some(AttrStyle(a.value)) else None
  }

  /** The target and the token of a trimmed token: a colon splits off a
      target of its own (trimmed, in lower case) and the token after it is
      trimmed again; without a colon the part's target stays. */
  function TokenTarget(target: string, t: string): (string, string)
  {
    var colon := FindFrom(t, ':', 0);
    if colon < |t| then (ToLower(Trim(t[..colon])), Trim(t[colon + 1..])) else (target, t)
  }

  /** One token of a part: trimmed, skipped when blank, then split into
      its own target and token, skipped when the token is blank. */
  function TokenEffect(target: string, raw: string): Option<Style>
  {
    var t := Trim(raw);
    if t == [] then None
    else
      var (tg, token) := TokenTarget(target, t);
      if token == [] then None else TokenPiece(tg, token)
  }

  /** `result = result | piece`, when there is a piece. */
  function Apply(acc: Style, piece: Option<Style>): Style
  {
    if piece.Some? then Combine(acc, piece.value) else acc
  }

  function ApplyTokens(acc: Style, target: string, tokens: seq<string>): Style
    decreases |tokens|
  {
    if tokens == [] then acc
    else Apply(ApplyTokens(acc, target, tokens[..|tokens| - 1]), TokenEffect(target, tokens[|tokens| - 1]))
  }

  /** The target of a trimmed part: the text before its first colon,
      trimmed and in lower case, or `fg` without a colon. */
  function PartTarget(part: string): string
  {
    var colon := FindFrom(part, ':', 0);
    if colon < |part| then ToLower(Trim(part[..colon])) else "fg"
  }

  /** The token list of a trimmed part: after its first colon, or all of it. */
  function PartTokens(part: string): string
  {
    var colon := FindFrom(part, ':', 0);
    if colon < |part| then part[colon + 1..] else part
  }

  function ApplyPart(acc: Style, raw: string): Style
  {
    var part := Trim(raw);
    if part == [] then acc else ApplyTokens(acc, PartTarget(part), Split(PartTokens(part), ';'))
  }

  function ApplyParts(acc: Style, parts: seq<string>): Style
    decreases |parts|
  {
    if parts == [] then acc
    else ApplyPart(ApplyParts(acc, parts[..|parts| - 1]), parts[|parts| - 1])
  }

  /** The style `parseTerminalStyle` builds from a style string. */
  function StyleOf(styleStr: string): Style
  {
    ApplyParts(Plain, TopLevel(styleStr, ',', 0, []))
  }

  /** The colour branches of the token loop: `rgb(` goes to
      `parseRGBColor`, `#` to `parseHexColor`, anything else to the colour
      names. */
  method ParseTokenColor(token: string) returns (c: Option<Color>)
    ensures c == TokenColor(token)
  {
    if StartsWithRgb(token) {
      var rgb := ParseRGBColor(token);
      c := if rgb.Some? then Some(Rgb(rgb.value)) else None;
    } else if token != [] && token[0] == '#' {
      var rgb := ParseHexColor(token);
      c := if rgb.Some? then Some(Rgb(rgb.value)) else None;
    } else {
      var named := ParseNamedColor(token);
      c := if named.Some? then Some(Named(named.value)) else None;
    }
  }

  /** The last steps of the token loop: a colour of the target when there
      is one, otherwise an attribute. */
  method ParseTokenPiece(target: string, token: string) returns (piece: Option<Style>)
    ensures piece == TokenPiece(target, token)
  {
    piece := None;
    var parsedColor := false;
    if target == "fg" || target == "bg" {
      var c := ParseTokenColor(token);
      if c.Some? {
        piece := Some(ColorStyle(c.value, target == "fg"));
        parsedColor := true;
      }
    }
    if !parsedColor {
      var attr := ParseColorAttribute(token);
      if attr.Some? {
        piece := Some(AttrStyle(attr.value));
      }
    }
  }

  /** The colon check of the token loop. */
  method SplitTokenTarget(target: string, token: string) returns (currentTarget: string, rest: string)
    ensures (currentTarget, rest) == TokenTarget(target, token)
  {
    currentTarget, rest := target, token;
    var innerColon := FindFrom(token, ':', 0);
    if innerColon < |token| {
      currentTarget := ToLower(Trim(token[..innerColon]));
      rest := Trim(token[innerColon + 1..]);
    }
  }

  /** The body of the token loop: trim, skip a blank token, split off an
      own target, skip a blank remainder, then apply what the token names. */
  method ApplyToken(result: Style, target: string, raw: string) returns (next: Style)
    ensures next == Apply(result, TokenEffect(target, raw))
  {
    var token := Trim(raw);
    if token == [] {
      return result;
    }
    var currentTarget, rest := SplitTokenTarget(target, token);
    if rest == [] {
      return result;
    }
    var piece := ParseTokenPiece(currentTarget, rest);
    next := if piece.Some? then Combine(result, piece.value) else result;
  }

  /** The token loop of one part. */
  method ApplyTokenList(acc: Style, target: string, tokens: seq<string>) returns (result: Style)
    ensures result == ApplyTokens(acc, target, tokens)
  {
    result := acc;
    for i := 0 to |tokens|
      invariant result == ApplyTokens(acc, target, tokens[..i])
    {
      assert tokens[..i + 1][..i] == tokens[..i];
      result := ApplyToken(result, target, tokens[i]);
    }
    assert tokens[..|tokens|] == tokens;
  }

  /** The body of the part loop: trim, skip a blank part, read the target
      from a colon prefix, split the rest on `;` and apply the tokens. */
  method ApplyOnePart(result: Style, raw: string) returns (next: Style)
    ensures next == ApplyPart(result, raw)
  {
    var part := Trim(raw);
    if part == [] {
      return result;
    }
    var target := "fg";
    var tokenList := part;
    var colonPos := FindFrom(part, ':', 0);
    if colonPos < |part| {
      target := ToLower(Trim(part[..colonPos]));
      tokenList := part[colonPos + 1..];
    }
    var tokens := SplitString(tokenList, ';');
    next := ApplyTokenList(result, target, tokens);
  }

  /** `parseTerminalStyle`: the top-level comma parts applied in order to
      the plain style.  A `#` token goes through the corrected `ParseHexColor`;
      `StyleOfAsWritten` is the style the hexadecimal parser as written gives,
      and `StyleOfHexSign` a string on which the two differ (see Findings). */
  method ParseTerminalStyle(styleStr: string) returns (result: Style)
    ensures result == StyleOf(styleStr)
  {
    result := Plain;
    var parts := SplitTopLevel(styleStr, ',');
    for i := 0 to |parts|
      invariant result == ApplyParts(Plain, parts[..i])
    {
      assert parts[..i + 1][..i] == parts[..i];
      result := ApplyOnePart(result, parts[i]);
    }
    assert parts[..|parts|] == parts;
  }

  // ---------------------------------------------------------------------------
  // parseTerminalStyle with parseHexColor as written

  /** The colour of a token when `#...` goes through the hexadecimal parser
      as written; the other branches are those of `TokenColor`. */
  function TokenColorAsWritten(token: string): Option<Color>
  {
    if !StartsWithRgb(token) && token != [] && token[0] == '#' then
      var c := ParseHexAsWritten(token);
      if c.Some? then Some(Rgb(c.value)) else None
    else TokenColor(token)
  }

  function TokenPieceAsWritten(target: string, token: string): Option<Style>
  {
    var c := if target == "fg" || target == "bg" then TokenColorAsWritten(token) else None;
    if c.Some? then Some(ColorStyle(c.value, target == "fg"))
    else
      var a := ParseColorAttribute(token);
      if a.Some? then Some(AttrStyle(a.value)) else None
  }

  function TokenEffectAsWritten(target: string, raw: string): Option<Style>
  {
    var t := Trim(raw);
    if t == [] then None
    else
      var (tg, token) := TokenTarget(target, t);
      if token == [] then None else TokenPieceAsWritten(tg, token)
  }

  function ApplyTokensAsWritten(acc: Style, target: string, tokens: seq<string>): Style
    decreases |tokens|
  {
    if tokens == [] then acc
    else Apply(ApplyTokensAsWritten(acc, target, tokens[..|tokens| - 1]), TokenEffectAsWritten(target, tokens[|tokens| - 1]))
  }

  function ApplyPartAsWritten(acc: Style, raw: string): Style
  {
    var part := Trim(raw);
    if part == [] then acc else ApplyTokensAsWritten(acc, PartTarget(part), Split(PartTokens(part), ';'))
  }

  function ApplyPartsAsWritten(acc: Style, parts: seq<string>): Style
    decreases |parts|
  {
    if parts == [] then acc
    else ApplyPartAsWritten(ApplyPartsAsWritten(acc, parts[..|parts| - 1]), parts[|parts| - 1])
  }

  /** The style `parseTerminalStyle` as written builds: the same loops, with
      `parseHexColor` as written.  `ParseTerminalStyle` and `StyleOf` use the
      corrected hexadecimal parser instead. */
  function StyleOfAsWritten(styleStr: string): Style
  {
    ApplyPartsAsWritten(Plain, TopLevel(styleStr, ',', 0, []))
  }

  /** On a token whose characters after `#` are hexadecimal digits, and on
      every token that does not start with `#`, the two colour readings agree. */
  lemma TokenColorAgrees(token: string)
    requires token != [] && token[0] == '#' ==> forall k :: 1 <= k < |token| ==> IsDigit(token[k], 16)
    ensures TokenColorAsWritten(token) == TokenColor(token)
  {
    if !StartsWithRgb(token) && token != [] && token[0] == '#' {
      ParseHexAgrees(token);
    }
  }

  /** A word on its own is one token for the default target `fg`, in the
      parser as written too. */
  lemma StyleOfWordAsWritten(w: string)
    requires Word(w)
    ensures StyleOfAsWritten(w) == Apply(Plain, TokenPieceAsWritten("fg", w))
  {
    TopLevelSingle(w, ',', []);
    assert [] + w == w;
    assert ApplyPartsAsWritten(Plain, [w]) == ApplyPartAsWritten(Plain, w) by {
      assert [w][..0] == [];
    }
    TrimUnpadded(w);
    FindNone(w, ':');
    assert ApplyPartAsWritten(Plain, w) == ApplyTokensAsWritten(Plain, "fg", Split(w, ';'));
    assert Split(w, ';') == [w] by {
      SplitFreePrefix(w, [], ';');
      assert w + [] == w;
    }
    assert ApplyTokensAsWritten(Plain, "fg", [w]) == Apply(Plain, TokenEffectAsWritten("fg", w)) by {
      assert [w][..0] == [];
    }
    assert TokenTarget("fg", w) == ("fg", w);
  }

  /** `stoi("fg", nullptr, 16)` reads the `f` and stops at the `g`. */
  lemma StoiStopsAtNonDigit()
    ensures Stoi("fg", 16) == Some(15)
  {
    var t := "fg";
    assert LeadingSpace(t) == 0 && t[0..] == t;
    assert DropHexPrefix(t, 16) == t;
    assert DigitRun(t, 16) == 1 by {
      assert t[1..] == "g";
    }
    assert t[..1] == "f" && "f"[..0] == [];
  }

  /** Only hexadecimal digits are read: "#fg0000" reads as red 15 in the
      parser as written, because `stoi` stops at the `g`, and is rejected by
      the corrected one. */
  lemma HexPartialAsWritten()
    ensures ParseHexAsWritten("#fg0000") == Some(RGBColor(15, 0, 0))
    ensures ParseHexColor("#fg0000") == None
  {
    var hex := "#fg0000"[1..];
    assert hex == "fg0000";
    assert hex[0..2] == "fg" && hex[2..4] == "00" && hex[4..6] == "00";
    StoiStopsAtNonDigit();
    StoiHexPair('0', '0');
    assert !IsDigit(hex[1], 16);
  }

  /** A token `#-d....` is a single word that names no colour and no attribute. */
  lemma HexSignWord(d: char, rest: string)
    requires IsDigit(d, 16)
    requires |rest| == 4 && forall k :: 0 <= k < 4 ==> IsDigit(rest[k], 16)
    ensures Word(['#', '-', d] + rest) && !StartsWithRgb(['#', '-', d] + rest)
    ensures ParseNamedColor(['#', '-', d] + rest) == None
    ensures ParseColorAttribute(['#', '-', d] + rest) == None
  {
    var w := ['#', '-', d] + rest;
    assert Word(w) by {
      forall k | 0 <= k < |w|
        ensures w[k] != ',' && w[k] != ';' && w[k] != ':' && !IsOpener(w[k]) && !IsCloser(w[k])
        ensures !IsTrimSpace(w[k])
      {
        if k >= 3 {
          assert w[k] == rest[k - 3];
        }
      }
    }
    assert w[..4][0] == '#';
    TrimUnpadded(w);
    HashNamesNothing(ToLower(w));
  }

  /** No colour name and no attribute name starts with `#`. */
  lemma HashNamesNothing(t: string)
    requires t != [] && t[0] == '#'
    ensures NamedColorOf(t) == None
    ensures t != "bold" && t != "dim" && t != "underline"
  {
  }

  /** A style string `#-d....` shows the difference: as written it sets the
      foreground to a colour with a negative red component, which no
      terminal accepts; with the corrected parser the token is no colour and
      no attribute, so the style stays plain.  "#-10000" is one such string
      (`d` = '1', `rest` = "0000"). */
  lemma StyleOfHexSign(d: char, rest: string)
    requires IsDigit(d, 16) && DigitValue(d) > 0
    requires |rest| == 4 && forall k :: 0 <= k < 4 ==> IsDigit(rest[k], 16)
    ensures var c := StyleOfAsWritten(['#', '-', d] + rest).fg;
      c.Some? && c.value.Rgb? && c.value.rgb.r == 0 - DigitValue(d) < 0
    ensures StyleOf(['#', '-', d] + rest) == Plain
    ensures StyleOfAsWritten(['#', '-', d] + rest) != StyleOf(['#', '-', d] + rest)
  {
    var w := ['#', '-', d] + rest;
    HexSignWord(d, rest);
    HexSignAsWritten(d, rest);
    HexSignRejected(d, rest);
    StyleOfWordAsWritten(w);
    StyleOfWord(w);
    var c := ParseHexAsWritten(w).value;
    assert TokenPieceAsWritten("fg", w) == Some(FgStyle(Rgb(c)));
    assert TokenPiece("fg", w) == None;
    CombineIdentity(FgStyle(Rgb(c)));
  }

  /** "#-10000": a foreground with red -1 as written, the plain style with
      the correction. */
  lemma StyleOfHexSignExample(w: string)
    requires w == "#-10000"
    ensures StyleOfAsWritten(w).fg.Some? && StyleOfAsWritten(w).fg.value.Rgb?
    ensures StyleOfAsWritten(w).fg.value.rgb.r == -1
    ensures StyleOf(w) == Plain
  {
    assert w == ['#', '-', '1'] + "0000";
    StyleOfHexSign('1', "0000");
  }

  // ---------------------------------------------------------------------------
  // Properties of parseTerminalStyle

  lemma TokenPieceWellformed(target: string, token: string)
    ensures TokenPiece(target, token).Some? ==> Wellformed(TokenPiece(target, token).value)
  {
  }

  lemma {:induction false} ApplyTokensWellformed(acc: Style, target: string, tokens: seq<string>)
    requires Wellformed(acc)
    ensures Wellformed(ApplyTokens(acc, target, tokens))
    decreases |tokens|
  {
    if tokens != [] {
      ApplyTokensWellformed(acc, target, tokens[..|tokens| - 1]);
      var t := Trim(tokens[|tokens| - 1]);
      if t != [] {
        var (tg, token) := TokenTarget(target, t);
        TokenPieceWellformed(tg, token);
      }
    }
  }

  lemma {:induction false} ApplyPartsWellformed(acc: Style, parts: seq<string>)
    requires Wellformed(acc)
    ensures Wellformed(ApplyParts(acc, parts))
    decreases |parts|
  {
    if parts != [] {
      var before := ApplyParts(acc, parts[..|parts| - 1]);
      ApplyPartsWellformed(acc, parts[..|parts| - 1]);
      var part := Trim(parts[|parts| - 1]);
      if part != [] {
        ApplyTokensWellformed(before, PartTarget(part), Split(PartTokens(part), ';'));
      }
    }
  }

  /** Every style string parses to a style whose escape sequence a
      terminal reads back as that same style. */
  lemma ParsedStyleReadsBack(styleStr: string)
    ensures Wellformed(StyleOf(styleStr))
    ensures ReadSgr(ToString(StyleOf(styleStr))) == Some(StyleOf(styleStr))
  {
    ApplyPartsWellformed(Plain, TopLevel(styleStr, ',', 0, []));
    SgrRoundTrip(StyleOf(styleStr));
  }

  /** The token loop starting from `acc` is `acc |` the loop started from
      the plain style. */
  lemma {:induction false} ApplyTokensFromPlain(acc: Style, target: string, tokens: seq<string>)
    ensures ApplyTokens(acc, target, tokens) == Combine(acc, ApplyTokens(Plain, target, tokens))
    decreases |tokens|
  {
    if tokens == [] {
      CombineIdentity(acc);
    } else {
      var init := tokens[..|tokens| - 1];
      ApplyTokensFromPlain(acc, target, init);
      var e := TokenEffect(target, tokens[|tokens| - 1]);
      if e.Some? {
        CombineAssociative(acc, ApplyTokens(Plain, target, init), e.value);
      }
    }
  }

  /** The part loop starting from `acc` is `acc |` the loop started from
      the plain style. */
  lemma {:induction false} ApplyPartsFromPlain(acc: Style, parts: seq<string>)
    ensures ApplyParts(acc, parts) == Combine(acc, ApplyParts(Plain, parts))
    decreases |parts|
  {
    if parts == [] {
      CombineIdentity(acc);
    } else {
      var init := parts[..|parts| - 1];
      ApplyPartsFromPlain(acc, init);
      var before := ApplyParts(Plain, init);
      var part := Trim(parts[|parts| - 1]);
      if part != [] {
        var target, tokens := PartTarget(part), Split(PartTokens(part), ';');
        ApplyTokensFromPlain(Combine(acc, before), target, tokens);
        ApplyTokensFromPlain(before, target, tokens);
        CombineAssociative(acc, before, ApplyTokens(Plain, target, tokens));
      }
    }
  }

  /** A part that is not the last is applied first. */
  lemma ApplyPartsCons(acc: Style, part: string, parts: seq<string>)
    ensures ApplyParts(acc, [part] + parts) == ApplyParts(ApplyPart(acc, part), parts)
  {
    ApplyPartsFromPlain(acc, [part] + parts);
    ApplyPartsFromPlain(ApplyPart(acc, part), parts);
    ApplyPartsAppend(Plain, [part], parts);
    ApplyPartsFromPlain(ApplyPart(Plain, part), parts);
    assert ApplyParts(Plain, [part]) == ApplyPart(Plain, part) by {
      assert [part][..0] == [];
    }
    ApplyPartFromPlain(acc, part);
    CombineAssociative(acc, ApplyPart(Plain, part), ApplyParts(Plain, parts));
  }

  lemma {:induction false} ApplyPartsAppend(acc: Style, xs: seq<string>, ys: seq<string>)
    ensures ApplyParts(acc, xs + ys) == ApplyParts(ApplyParts(acc, xs), ys)
    decreases |ys|
  {
    if ys == [] {
      assert xs + ys == xs;
    } else {
      assert (xs + ys)[..|xs + ys| - 1] == xs + ys[..|ys| - 1];
      ApplyPartsAppend(acc, xs, ys[..|ys| - 1]);
    }
  }

  lemma ApplyPartFromPlain(acc: Style, raw: string)
    ensures ApplyPart(acc, raw) == Combine(acc, ApplyPart(Plain, raw))
  {
    var part := Trim(raw);
    if part == [] {
      CombineIdentity(acc);
    } else {
      ApplyTokensFromPlain(acc, PartTarget(part), Split(PartTokens(part), ';'));
    }
  }

  /** Parts separated by a top-level comma are combined with `|`: the
      style of `a,b` is the style of `a` followed by the style of `b`. */
  lemma StyleOfComma(a: string, b: string)
    requires Free(a, ',') && BracketFree(a)
    ensures StyleOf(a + [','] + b) == Combine(StyleOf(a), StyleOf(b))
  {
    TopLevelHead(a, b, ',', []);
    assert [] + a == a;
    ApplyPartsCons(Plain, a, TopLevel(b, ',', 0, []));
    ApplyPartsFromPlain(ApplyPart(Plain, a), TopLevel(b, ',', 0, []));
    TopLevelSingle(a, ',', []);
    if a != [] {
      assert ApplyParts(Plain, [a]) == ApplyPart(Plain, a) by {
        assert [a][..0] == [];
      }
    } else {
      assert Trim(a) == [];
    }
  }

  /** A token that the style string syntax leaves whole: no delimiter, no
      colon, no bracket and no padding. */
  predicate Word(w: string)
  {
    w != [] && Free(w, ',') && Free(w, ';') && Free(w, ':') && BracketFree(w) &&
    !IsTrimSpace(w[0]) && !IsTrimSpace(w[|w| - 1])
  }

  predicate LowerLetters(w: string)
  {
    forall k :: 0 <= k < |w| ==> 'a' <= w[k] <= 'z'
  }

  lemma LowerLettersWord(w: string)
    requires w != [] && LowerLetters(w)
    ensures Word(w)
    ensures !StartsWithRgb(w) && w[0] != '#'
  {
    forall k | 0 <= k < |w|
      ensures w[k] != ',' && w[k] != ';' && w[k] != ':'
      ensures !IsOpener(w[k]) && !IsCloser(w[k]) && !IsTrimSpace(w[k])
    {
      assert 'a' <= w[k] <= 'z';
    }
    if |w| >= 4 {
      assert w[..4][3] == w[3];
    }
  }

  lemma LowerLettersFixed(w: string)
    requires w != [] && LowerLetters(w)
    ensures ToLower(w) == w
    ensures Trim(w) == w
  {
    LowerFixed(w);
    assert !IsTrimSpace(w[0]) && !IsTrimSpace(w[|w| - 1]);
    TrimOfPadded([], w, []);
    assert [] + w + [] == w;
  }

  lemma TrimUnpadded(w: string)
    requires w != [] && !IsTrimSpace(w[0]) && !IsTrimSpace(w[|w| - 1])
    ensures Trim(w) == w
  {
    TrimOfPadded([], w, []);
    assert [] + w + [] == w;
  }

  /** A part without top-level commas is the only part. */
  lemma StyleOfPart(s: string)
    requires s != [] && Free(s, ',') && BracketFree(s)
    ensures StyleOf(s) == ApplyPart(Plain, s)
  {
    TopLevelSingle(s, ',', []);
    assert [] + s == s;
    assert ApplyParts(Plain, [s]) == ApplyPart(Plain, s) by {
      assert [s][..0] == [];
    }
  }

  /** A word is a single token of its part. */
  lemma WordToken(target: string, w: string)
    requires Word(w)
    ensures ApplyTokens(Plain, target, Split(w, ';')) == Apply(Plain, TokenPiece(target, w))
  {
    SplitFreePrefix(w, [], ';');
    assert w + [] == w;
    assert [w][..0] == [];
    TrimUnpadded(w);
    FindNone(w, ':');
  }

  /** A word on its own is one token for the default target `fg`. */
  lemma StyleOfWord(w: string)
    requires Word(w)
    ensures StyleOf(w) == Apply(Plain, TokenPiece("fg", w))
  {
    StyleOfPart(w);
    TrimUnpadded(w);
    FindNone(w, ':');
    WordToken("fg", w);
  }

  /** The target and the tokens of `t:w`. */
  lemma TargetWordPart(t: string, w: string)
    requires Word(t) && Word(w)
    ensures var s := t + [':'] + w;
      s != [] && Free(s, ',') && BracketFree(s) && Trim(s) == s &&
      PartTarget(s) == ToLower(t) && PartTokens(s) == w
  {
    var s := t + [':'] + w;
    assert Free(s, ',') && BracketFree(s) by {
      forall k | 0 <= k < |s|
        ensures s[k] != ',' && !IsOpener(s[k]) && !IsCloser(s[k])
      {
        if k < |t| {
          assert s[k] == t[k];
        } else if k > |t| {
          assert s[k] == w[k - |t| - 1];
        }
      }
    }
    assert s[0] == t[0] && s[|s| - 1] == w[|w| - 1];
    TrimUnpadded(s);
    assert forall k :: 0 <= k < |t| ==> s[k] == t[k];
    FindFirst(s, ':', |t|);
    assert s[..|t|] == t && s[|t| + 1..] == w;
    TrimUnpadded(t);
  }

  /** `target:word` is one token for that target, in lower case. */
  lemma StyleOfTargetWord(t: string, w: string)
    requires Word(t) && Word(w)
    ensures StyleOf(t + [':'] + w) == Apply(Plain, TokenPiece(ToLower(t), w))
  {
    TargetWordPart(t, w);
    StyleOfPart(t + [':'] + w);
    WordToken(ToLower(t), w);
  }

  /** A lower-case word that names a colour is that colour for either target. */
  lemma NamedToken(w: string, c: NamedColor)
    requires w != [] && LowerLetters(w) && NamedColorOf(w) == Some(c)
    ensures TokenPiece("fg", w) == Some(FgStyle(Named(c)))
    ensures TokenPiece("bg", w) == Some(BgStyle(Named(c)))
  {
    LowerLettersWord(w);
    LowerLettersFixed(w);
  }

  lemma ColorNameLetters(c: NamedColor)
    ensures ColorName(c) != [] && LowerLetters(ColorName(c))
  {
  }

  /** The token of a colour name is that colour, for either target. */
  lemma ColorNameToken(c: NamedColor)
    ensures TokenPiece("fg", ColorName(c)) == Some(FgStyle(Named(c)))
    ensures TokenPiece("bg", ColorName(c)) == Some(BgStyle(Named(c)))
  {
    ColorNameLetters(c);
    NamedColorOfName(c);
    NamedToken(ColorName(c), c);
  }

  /** A lower-case word that names a colour sets the foreground. */
  lemma StyleOfNamedWord(w: string, c: NamedColor)
    requires w != [] && LowerLetters(w) && NamedColorOf(w) == Some(c)
    ensures StyleOf(w) == FgStyle(Named(c))
  {
    LowerLettersWord(w);
    NamedToken(w, c);
    CombineIdentity(FgStyle(Named(c)));
    StyleOfWord(w);
  }

  /** `bg:` before a word makes it a token for the background. */
  lemma StyleOfBgWord(w: string)
    requires Word(w)
    ensures StyleOf("bg:" + w) == Apply(Plain, TokenPiece("bg", w))
  {
    BgWord();
    StyleOfTargetWord("bg", w);
    assert "bg" + [':'] + w == "bg:" + w;
  }

  /** `bg:` before a lower-case word that names a colour sets the background. */
  lemma StyleOfBackgroundWord(w: string, c: NamedColor)
    requires w != [] && LowerLetters(w) && NamedColorOf(w) == Some(c)
    ensures StyleOf("bg:" + w) == BgStyle(Named(c))
  {
    LowerLettersWord(w);
    NamedToken(w, c);
    CombineIdentity(BgStyle(Named(c)));
    StyleOfBgWord(w);
  }

  lemma BgWord()
    ensures Word("bg") && ToLower("bg") == "bg"
  {
    LowerLettersWord("bg");
    LowerLettersFixed("bg");
  }

  /** A colour name sets the foreground, and `bg:` before it the background. */
  lemma StyleOfColorName(c: NamedColor)
    ensures StyleOf(ColorName(c)) == FgStyle(Named(c))
    ensures StyleOf("bg:" + ColorName(c)) == BgStyle(Named(c))
  {
    ColorNameLetters(c);
    NamedColorOfName(c);
    StyleOfNamedWord(ColorName(c), c);
    StyleOfBackgroundWord(ColorName(c), c);
  }

  lemma AttrNameLetters(a: Attribute)
    ensures AttrName(a) != [] && LowerLetters(AttrName(a))
  {
  }

  /** No attribute name is a colour name. */
  lemma AttrNameNotColor(a: Attribute)
    ensures NamedColorOf(AttrName(a)) == None
  {
  }

  /** An attribute name read as a token is that attribute. */
  lemma AttrNameToken(a: Attribute)
    ensures TokenPiece("fg", AttrName(a)) == Some(AttrStyle(a))
  {
    var n := AttrName(a);
    AttrNameLetters(a);
    AttrNameNotColor(a);
    LowerLettersWord(n);
    LowerLettersFixed(n);
  }

  /** An attribute name sets that attribute and nothing else. */
  lemma StyleOfAttrName(a: Attribute)
    ensures StyleOf(AttrName(a)) == AttrStyle(a)
  {
    AttrNameLetters(a);
    LowerLettersWord(AttrName(a));
    AttrNameToken(a);
    CombineIdentity(AttrStyle(a));
    StyleOfWord(AttrName(a));
  }

  // ---------------------------------------------------------------------------
  // Tokens in any case, and parts of several tokens

  /** ASCII letters of either case, at least one. */
  predicate Letters(w: string)
  {
    w != [] && forall k :: 0 <= k < |w| ==> 'a' <= w[k] <= 'z' || 'A' <= w[k] <= 'Z'
  }

  /** A word of letters is left whole, is not an `rgb(` or `#` colour, and
      lowers to lower-case letters. */
  lemma LettersWord(w: string)
    requires Letters(w)
    ensures Word(w) && !StartsWithRgb(w) && w[0] != '#' && Trim(w) == w
    ensures Letters(ToLower(w)) && LowerLetters(ToLower(w))
  {
    forall k | 0 <= k < |w|
      ensures w[k] != ',' && w[k] != ';' && w[k] != ':' && w[k] != '('
      ensures !IsOpener(w[k]) && !IsCloser(w[k]) && !IsTrimSpace(w[k])
    {
    }
    if |w| >= 4 {
      assert w[..4][3] == w[3];
    }
    TrimUnpadded(w);
  }

  /** A token that equals a colour name ignoring case is that colour, for
      either target. */
  lemma ColorWordToken(target: string, w: string, c: NamedColor)
    requires Letters(w) && IEquals(w, ColorName(c))
    requires target == "fg" || target == "bg"
    ensures TokenPiece(target, w) == Some(ColorStyle(Named(c), target == "fg"))
  {
    LettersWord(w);
    IEqualsIsLowerEquality(w, ColorName(c), w);
    ColorNameLower(c);
    NamedColorOfName(c);
    assert ParseNamedColor(w) == Some(c);
  }

  /** A token that equals an attribute name ignoring case is that
      attribute, whatever the target. */
  lemma AttrWordToken(target: string, w: string, a: Attribute)
    requires Letters(w) && IEquals(w, AttrName(a))
    ensures TokenPiece(target, w) == Some(AttrStyle(a))
  {
    LettersWord(w);
    ParseColorAttributeIff(w, a);
    var n := AttrName(a);
    AttrNameLetters(a);
    LowerFixed(n);
    IEqualsIsLowerEquality(w, n, w);
    AttrNameNotColor(a);
    assert ParseNamedColor(w) == None;
  }

  /** A word is a token for the target in force. */
  lemma WordEffect(target: string, w: string)
    requires Word(w)
    ensures TokenEffect(target, w) == TokenPiece(target, w)
  {
    TrimUnpadded(w);
    FindNone(w, ':');
  }

  /** `t:w` inside a part is a token for target `t`, whatever the part's
      own target: an inner `bg:` or `fg:` overrides it. */
  lemma TargetedEffect(target: string, t: string, w: string)
    requires Word(t) && Word(w)
    ensures TokenEffect(target, t + [':'] + w) == TokenPiece(ToLower(t), w)
  {
    TargetWordPart(t, w);
    TrimUnpadded(w);
  }

  /** An inner `bg:` before a colour name sets the background, even in a
      part whose target is the foreground. */
  lemma InnerTargetOverrides(target: string, t: string, w: string, c: NamedColor)
    requires Word(t) && ToLower(t) == "bg"
    requires Letters(w) && IEquals(w, ColorName(c))
    ensures TokenEffect(target, t + [':'] + w) == Some(BgStyle(Named(c)))
  {
    LettersWord(w);
    TargetedEffect(target, t, w);
    ColorWordToken("bg", w, c);
  }

  /** Two `;`-free pieces joined by `;` split back into the two. */
  lemma SplitTwo(x: string, y: string)
    requires Free(x, ';') && Free(y, ';')
    ensures Split(x + [';'] + y, ';') == [x, y]
  {
    var tail := [';'] + y;
    assert x + [';'] + y == x + tail;
    SplitFreePrefix(x, tail, ';');
    assert Split(y, ';') == [y] by {
      SplitFreePrefix(y, [], ';');
      assert y + [] == y;
    }
    assert tail[1..] == y;
    assert Split(tail, ';') == [[]] + [y];
    assert x + [] == x;
  }

  /** Two tokens separated by `;` are applied in order. */
  lemma TwoTokens(acc: Style, target: string, x: string, y: string)
    requires Free(x, ';') && Free(y, ';')
    ensures ApplyTokens(acc, target, Split(x + [';'] + y, ';'))
         == Apply(Apply(acc, TokenEffect(target, x)), TokenEffect(target, y))
  {
    SplitTwo(x, y);
    assert ApplyTokens(acc, target, [x]) == Apply(acc, TokenEffect(target, x)) by {
      assert [x][..0] == [];
    }
    assert [x, y][..1] == [x];
  }

  /** A trimmed part without a colon is a token list for the foreground. */
  lemma PlainPart(acc: Style, s: string)
    requires s != [] && Free(s, ':') && !IsTrimSpace(s[0]) && !IsTrimSpace(s[|s| - 1])
    ensures ApplyPart(acc, s) == ApplyTokens(acc, "fg", Split(s, ';'))
  {
    TrimUnpadded(s);
    FindNone(s, ':');
  }

  /** A trimmed part `t:rest` is the token list `rest` for target `t`. */
  lemma TargetPart(acc: Style, t: string, rest: string)
    requires Word(t) && rest != [] && !IsTrimSpace(rest[|rest| - 1])
    ensures ApplyPart(acc, t + [':'] + rest) == ApplyTokens(acc, ToLower(t), Split(rest, ';'))
  {
    var s := t + [':'] + rest;
    assert s[0] == t[0] && s[|s| - 1] == rest[|rest| - 1];
    TrimUnpadded(s);
    assert forall k :: 0 <= k < |t| ==> s[k] == t[k];
    FindFirst(s, ':', |t|);
    assert s[..|t|] == t && s[|t| + 1..] == rest;
    TrimUnpadded(t);
  }

  /** Letters, `;`, `:` and the letters again have no comma and no bracket. */
  lemma LettersFlat(w: string)
    requires Letters(w)
    ensures Free(w, ',') && BracketFree(w) && Free(w, ';') && Free(w, ':')
  {
    LettersWord(w);
  }

  lemma JoinedFlat(x: string, d: char, y: string)
    requires Free(x, ',') && BracketFree(x) && Free(y, ',') && BracketFree(y)
    requires d != ',' && !IsOpener(d) && !IsCloser(d)
    ensures Free(x + [d] + y, ',') && BracketFree(x + [d] + y)
  {
    var s := x + [d] + y;
    forall k | 0 <= k < |s|
      ensures s[k] != ',' && !IsOpener(s[k]) && !IsCloser(s[k])
    {
      if k < |x| {
        assert s[k] == x[k];
      } else if k > |x| {
        assert s[k] == y[k - |x| - 1];
      }
    }
  }

  /** The tokens `colour;attribute`, with words that name a colour and an
      attribute ignoring case, set that colour for the target and the attribute. */
  lemma ColorAttributeTokens(target: string, x: string, y: string, c: NamedColor, a: Attribute)
    requires target == "fg" || target == "bg"
    requires Letters(x) && IEquals(x, ColorName(c))
    requires Letters(y) && IEquals(y, AttrName(a))
    ensures ApplyTokens(Plain, target, Split(x + [';'] + y, ';'))
         == Combine(ColorStyle(Named(c), target == "fg"), AttrStyle(a))
  {
    LettersWord(x);
    LettersWord(y);
    TwoTokens(Plain, target, x, y);
    WordEffect(target, x);
    WordEffect(target, y);
    ColorWordToken(target, x, c);
    AttrWordToken(target, y, a);
    CombineIdentity(ColorStyle(Named(c), target == "fg"));
  }

  /** Every part `colour;attribute` whose words name a colour and an
      attribute ignoring case sets that foreground and that attribute. */
  lemma StyleOfColorAttribute(x: string, y: string, c: NamedColor, a: Attribute)
    requires Letters(x) && IEquals(x, ColorName(c))
    requires Letters(y) && IEquals(y, AttrName(a))
    ensures StyleOf(x + [';'] + y) == Style(Some(Named(c)), None, AttrBit(a))
  {
    var s := x + [';'] + y;
    LettersPart(x, y);
    StyleOfPart(s);
    PlainPart(Plain, s);
    ColorAttributeTokens("fg", x, y, c, a);
    var m := AttrBit(a);
    assert 0 | m == m;
  }

  /** `x;y` for two words of letters is a whole part with no colon and no padding. */
  lemma LettersPart(x: string, y: string)
    requires Letters(x) && Letters(y)
    ensures var s := x + [';'] + y;
      s != [] && Free(s, ',') && BracketFree(s) && Free(s, ':') &&
      !IsTrimSpace(s[0]) && !IsTrimSpace(s[|s| - 1])
  {
    var s := x + [';'] + y;
    LettersFlat(x);
    LettersFlat(y);
    JoinedFlat(x, ';', y);
    assert Free(s, ':') by {
      forall k | 0 <= k < |s| ensures s[k] != ':' {
        if k > |x| { assert s[k] == y[k - |x| - 1]; }
      }
    }
    assert s[0] == x[0] && s[|s| - 1] == y[|y| - 1];
    LettersWord(x);
    LettersWord(y);
  }

  /** Every part `target:colour;attribute`, with `fg` or `bg` in any case,
      sets that colour for that target and the attribute. */
  lemma StyleOfTargetColorAttribute(t: string, x: string, y: string, c: NamedColor, a: Attribute)
    requires Word(t) && (ToLower(t) == "fg" || ToLower(t) == "bg")
    requires Letters(x) && IEquals(x, ColorName(c))
    requires Letters(y) && IEquals(y, AttrName(a))
    ensures StyleOf(t + [':'] + (x + [';'] + y))
         == Combine(ColorStyle(Named(c), ToLower(t) == "fg"), AttrStyle(a))
    ensures var s := t + [':'] + (x + [';'] + y);
      Free(s, ',') && BracketFree(s) && !IsTrimSpace(s[0]) && !IsTrimSpace(s[|s| - 1])
  {
    var rest := x + [';'] + y;
    assert (t + [':'] + rest)[0] == t[0];
    LettersFlat(x);
    LettersFlat(y);
    JoinedFlat(x, ';', y);
    JoinedFlat(t, ':', rest);
    assert rest[|rest| - 1] == y[|y| - 1];
    LettersWord(y);
    StyleOfPart(t + [':'] + rest);
    TargetPart(Plain, t, rest);
    ColorAttributeTokens(ToLower(t), x, y, c, a);
  }

  /** A word of letters means the same in any case: the style depends only
      on its lower-case spelling. */
  lemma StyleOfIgnoresCase(w: string, v: string)
    requires Letters(w) && Letters(v) && IEquals(w, v)
    ensures StyleOf(w) == StyleOf(v)
  {
    LettersWord(w);
    LettersWord(v);
    StyleOfWord(w);
    StyleOfWord(v);
    TokenIgnoresCase(w, v);
  }

  /** Two words of letters equal ignoring case are the same token. */
  lemma TokenIgnoresCase(w: string, v: string)
    requires Letters(w) && Letters(v) && IEquals(w, v)
    ensures TokenPiece("fg", w) == TokenPiece("fg", v)
  {
    LettersWord(w);
    LettersWord(v);
    IEqualsIsLowerEquality(w, v, w);
    var l := ToLower(Trim(w));
    assert ToLower(Trim(v)) == l;
    assert ParseNamedColor(w) == NamedColorOf(l) == ParseNamedColor(v);
    assert ParseColorAttribute(w) == ParseColorAttribute(v);
  }

  /** Padding before a part does not change its style. */
  lemma StyleOfPadded(pad: string, p: string)
    requires AllSpace(pad) && p != [] && Free(p, ',') && BracketFree(p)
    requires !IsTrimSpace(p[0]) && !IsTrimSpace(p[|p| - 1])
    ensures StyleOf(pad + p) == StyleOf(p)
  {
    var s := pad + p;
    assert Free(s, ',') && BracketFree(s) by {
      forall k | 0 <= k < |s| ensures s[k] != ',' && !IsOpener(s[k]) && !IsCloser(s[k]) {
        if k >= |pad| {
          assert s[k] == p[k - |pad|];
        } else {
          assert IsTrimSpace(pad[k]) && s[k] == pad[k];
        }
      }
    }
    assert s != [] by {
      assert |s| >= |p|;
    }
    StyleOfPart(s);
    StyleOfPart(p);
    TrimOfPadded(pad, p, []);
    assert s + [] == s;
    TrimUnpadded(p);
  }

  lemma TargetWords()
    ensures Word("fg") && ToLower("fg") == "fg"
    ensures Word("bg") && ToLower("bg") == "bg"
  {
    LowerLettersWord("fg");
    LowerLettersFixed("fg");
    BgWord();
  }

  // ---------------------------------------------------------------------------
  // The library's own examples

  /** "Red;Bold" sets a red foreground and bold, printed "ESC[1;31m". */
  lemma RedBoldExample(s: string)
    requires s == "Red;Bold"
    ensures StyleOf(s) == Style(Some(Named(Red)), None, 1)
    ensures ToString(StyleOf(s)) == [Esc] + "[1;31m"
  {
    assert s == "Red" + [';'] + "Bold";
    RedBoldSpellings();
    StyleOfColorAttribute("Red", "Bold", Red, Bold);
    ToStringRedBold();
  }

  lemma ToStringRedBold()
    ensures ToString(Style(Some(Named(Red)), None, 1)) == [Esc] + "[1;31m"
  {
    var st := Style(Some(Named(Red)), None, 1);
    assert Groups(st) == [[1], [31]];
    CodeTextOne(1);
    CodeTextTwo(3, 1);
    assert Codes(st) == ["1", "31"];
  }

  /** The code text of a one-digit number. */
  lemma CodeTextOne(d: nat)
    requires d < 10
    ensures CodeText([d]) == [DigitChar(d)]
  {
    assert Texts([d]) == [IntToString(d)];
  }

  /** The code text of a two-digit number. */
  lemma CodeTextTwo(hi: nat, lo: nat)
    requires 0 < hi < 10 && lo < 10
    ensures CodeText([10 * hi + lo]) == [DigitChar(hi), DigitChar(lo)]
  {
    var n := 10 * hi + lo;
    assert n / 10 == hi && n % 10 == lo;
    assert NatToString(n) == NatToString(hi) + [DigitChar(lo)];
    assert IntToString(n) == [DigitChar(hi), DigitChar(lo)];
    assert Texts([n]) == [IntToString(n)];
  }

  /** The code text of a three-digit number. */
  lemma CodeTextThree(h: nat, t: nat, u: nat)
    requires 0 < h < 10 && t < 10 && u < 10
    ensures CodeText([100 * h + 10 * t + u]) == [DigitChar(h), DigitChar(t), DigitChar(u)]
  {
    var n := 100 * h + 10 * t + u;
    assert n / 10 == 10 * h + t && n % 10 == u;
    assert (10 * h + t) / 10 == h && (10 * h + t) % 10 == t;
    assert NatToString(n) == NatToString(10 * h + t) + [DigitChar(u)];
    assert NatToString(10 * h + t) == NatToString(h) + [DigitChar(t)];
    assert IntToString(n) == [DigitChar(h), DigitChar(t), DigitChar(u)];
    assert Texts([n]) == [IntToString(n)];
  }

  /** A part `t:colour;b:colour'` whose inner target `b` is `bg` sets the
      first colour for target `t` and then the second as background. */
  lemma StyleOfColorInnerBg(t: string, x: string, b: string, y: string, c: NamedColor, d: NamedColor)
    requires Word(t) && (ToLower(t) == "fg" || ToLower(t) == "bg")
    requires Letters(x) && IEquals(x, ColorName(c))
    requires Word(b) && ToLower(b) == "bg"
    requires Letters(y) && IEquals(y, ColorName(d))
    ensures StyleOf(t + [':'] + (x + [';'] + (b + [':'] + y)))
         == Combine(ColorStyle(Named(c), ToLower(t) == "fg"), BgStyle(Named(d)))
  {
    var rest := x + [';'] + (b + [':'] + y);
    InnerBgPart(t, x, b, y);
    StyleOfPart(t + [':'] + rest);
    TargetPart(Plain, t, rest);
    ColorInnerBgTokens(ToLower(t), x, b, y, c, d);
  }

  /** The shape of `t:x;b:y`: one part, with no comma, bracket or padding. */
  lemma InnerBgPart(t: string, x: string, b: string, y: string)
    requires Word(t) && Letters(x) && Word(b) && Letters(y)
    ensures var rest := x + [';'] + (b + [':'] + y);
      Free(t + [':'] + rest, ',') && BracketFree(t + [':'] + rest) && t + [':'] + rest != [] &&
      rest != [] && !IsTrimSpace(rest[|rest| - 1]) && Free(x, ';') && Free(b + [':'] + y, ';')
  {
    var inner := b + [':'] + y;
    var rest := x + [';'] + inner;
    LettersWord(y);
    LettersFlat(x);
    LettersFlat(y);
    JoinedFlat(b, ':', y);
    assert Free(inner, ';') by {
      forall k | 0 <= k < |inner| ensures inner[k] != ';' {
        if k > |b| { assert inner[k] == y[k - |b| - 1]; }
      }
    }
    JoinedFlat(x, ';', inner);
    JoinedFlat(t, ':', rest);
    assert rest[|rest| - 1] == y[|y| - 1];
  }

  /** The tokens `x;b:y` set colour `c` for the target and then colour `d`
      for the background. */
  lemma ColorInnerBgTokens(target: string, x: string, b: string, y: string, c: NamedColor, d: NamedColor)
    requires target == "fg" || target == "bg"
    requires Letters(x) && IEquals(x, ColorName(c))
    requires Word(b) && ToLower(b) == "bg"
    requires Letters(y) && IEquals(y, ColorName(d))
    requires Free(x, ';') && Free(b + [':'] + y, ';')
    ensures ApplyTokens(Plain, target, Split(x + [';'] + (b + [':'] + y), ';'))
         == Combine(ColorStyle(Named(c), target == "fg"), BgStyle(Named(d)))
  {
    LettersWord(x);
    TwoTokens(Plain, target, x, b + [':'] + y);
    WordEffect(target, x);
    ColorWordToken(target, x, c);
    InnerTargetOverrides(target, b, y, d);
    CombineIdentity(ColorStyle(Named(c), target == "fg"));
  }

  /** "fg:Black;bg:White" sets a black foreground and, through the inner
      `bg:`, a white background, printed "ESC[30;107m". */
  lemma BlackOnWhiteExample(s: string)
    requires s == "fg:Black;bg:White"
    ensures StyleOf(s) == Style(Some(Named(Black)), Some(Named(White)), 0)
    ensures ToString(StyleOf(s)) == [Esc] + "[30;107m"
  {
    assert s == "fg" + [':'] + ("Black" + [';'] + ("bg" + [':'] + "White"));
    TargetWords();
    BlackWhiteSpellings();
    StyleOfColorInnerBg("fg", "Black", "bg", "White", Black, White);
    ToStringBlackOnWhite();
  }

  lemma ToStringBlackOnWhite()
    ensures ToString(Style(Some(Named(Black)), Some(Named(White)), 0)) == [Esc] + "[30;107m"
  {
    var st := Style(Some(Named(Black)), Some(Named(White)), 0);
    assert Groups(st) == [[30], [107]];
    CodeTextTwo(3, 0);
    CodeTextThree(1, 0, 7);
    assert Codes(st) == ["30", "107"];
  }

  /** "fg:Blue;Bold, bg:Yellow;Underline": two parts, combined; printed
      attributes first, then foreground, then background: "ESC[1;4;34;43m". */
  lemma MixedTargetsExample(s: string)
    requires s == "fg:Blue;Bold, bg:Yellow;Underline"
    ensures StyleOf(s) == Style(Some(Named(Blue)), Some(Named(Yellow)), 5)
    ensures ToString(StyleOf(s)) == [Esc] + "[1;4;34;43m"
  {
    var a := "fg" + [':'] + ("Blue" + [';'] + "Bold");
    var b := " " + ("bg" + [':'] + ("Yellow" + [';'] + "Underline"));
    assert s == a + [','] + b;
    MixedFirstPart(a);
    MixedSecondPart(b);
    StyleOfComma(a, b);
    assert (1 as bv3) | (4 as bv3) == 5;
    ToStringMixedTargets();
  }

  lemma MixedFirstPart(a: string)
    requires a == "fg" + [':'] + ("Blue" + [';'] + "Bold")
    ensures Free(a, ',') && BracketFree(a)
    ensures StyleOf(a) == Style(Some(Named(Blue)), None, 1)
  {
    TargetWords();
    BlueBoldSpellings();
    StyleOfTargetColorAttribute("fg", "Blue", "Bold", Blue, Bold);
  }

  lemma MixedSecondPart(b: string)
    requires b == " " + ("bg" + [':'] + ("Yellow" + [';'] + "Underline"))
    ensures StyleOf(b) == Style(None, Some(Named(Yellow)), 4)
  {
    var p := "bg" + [':'] + ("Yellow" + [';'] + "Underline");
    TargetWords();
    YellowUnderlineSpellings();
    StyleOfTargetColorAttribute("bg", "Yellow", "Underline", Yellow, Underline);
    StyleOfPadded(" ", p);
  }

  lemma ToStringMixedTargets()
    ensures ToString(Style(Some(Named(Blue)), Some(Named(Yellow)), 5)) == [Esc] + "[1;4;34;43m"
  {
    var st := Style(Some(Named(Blue)), Some(Named(Yellow)), 5);
    assert Groups(st) == [[1], [4], [34], [43]];
    CodeTextOne(1);
    CodeTextOne(4);
    CodeTextTwo(3, 4);
    CodeTextTwo(4, 3);
    assert Codes(st) == ["1", "4", "34", "43"];
  }

  /** The capitalised names the examples use match the names ignoring case. */
  lemma RedBoldSpellings()
    ensures Letters("Red") && IEquals("Red", ColorName(Red))
    ensures Letters("Bold") && IEquals("Bold", AttrName(Bold))
  {
  }

  lemma BlackWhiteSpellings()
    ensures Letters("Black") && IEquals("Black", ColorName(Black))
    ensures Letters("White") && IEquals("White", ColorName(White))
  {
  }

  lemma BlueBoldSpellings()
    ensures Letters("Blue") && IEquals("Blue", ColorName(Blue))
    ensures Letters("Bold") && IEquals("Bold", AttrName(Bold))
  {
  }

  lemma YellowUnderlineSpellings()
    ensures Letters("Yellow") && IEquals("Yellow", ColorName(Yellow))
    ensures Letters("Underline") && IEquals("Underline", AttrName(Underline))
  {
  }
}
