/** Which lines the NUT tokenizer accepts, and how it reads them, said as a way of writing lines; and which bytes are text,
    said as a way of writing characters (RFC 3629). */
module NutText {
  import opened Basics
  import opened NutWire

  // ---- Lines -------------------------------------------------------------------------------------------

  /** Spaces and tabs. */
  predicate Gap(g: Line) {
    forall i :: 0 <= i < |g| ==> g[i] == 32 || g[i] == 9
  }

  /** A word may be written without quotes if it has no blank, quotation mark, line break or zero byte. */
  predicate Unquotable(t: Line) {
    t != [] && forall i :: 0 <= i < |t| ==> t[i] !in {0, 9, 10, 13, 32, 34}
  }

  /** It may be written in quotes if it has no line break or zero byte. */
  predicate Quotable(t: Line) {
    forall i :: 0 <= i < |t| ==> t[i] !in {0, 10, 13}
  }

  /** Inside quotes a quotation mark and a backslash, and nothing else, get a backslash in front. */
  function Inside(t: Line): Line {
    if t == [] then [] else (if t[0] == 34 || t[0] == 92 then [92, t[0]] else [t[0]]) + Inside(t[1..])
  }

  function Spelling(t: Line, quoted: bool): Line {
    if quoted then [34] + Inside(t) + [34] else t
  }

  /** A choice of quotes for each token, and of the blanks before, between and after them; between tokens there is at
      least one. */
  predicate Layout(tokens: seq<Line>, quoted: seq<bool>, gaps: seq<Line>) {
    && |quoted| == |tokens| && |gaps| == |tokens| + 1 && (forall i :: 0 <= i < |gaps| ==> Gap(gaps[i]))
    && (forall i :: 0 < i < |tokens| ==> gaps[i] != [])
    && forall i :: 0 <= i < |tokens| ==> if quoted[i] then Quotable(tokens[i]) else Unquotable(tokens[i])
  }

  function Written(tokens: seq<Line>, quoted: seq<bool>, gaps: seq<Line>): Line
    requires |quoted| == |tokens| && |gaps| == |tokens| + 1
  {
    if tokens == [] then gaps[0]
    else gaps[0] + Spelling(tokens[0], quoted[0]) + Written(tokens[1..], quoted[1..], gaps[1..])
  }

  lemma {:induction false} InsideIsEscape(t: Line)
    ensures Inside(t) == Escape(t)
  {
    if t != [] {
      InsideIsEscape(t[1..]);
    }
  }

  lemma {:induction false} GapIsSkipped(g: Line, s: Line)
    requires Gap(g)
    ensures Tokens(g + s) == Tokens(s)
  {
    hide Quoted, Bare;
    if g == [] {
      assert g + s == s;
    } else {
      assert (g + s)[1..] == g[1..] + s;
      GapIsSkipped(g[1..], s);
      assert SkipBlanks(g + s) == SkipBlanks(g[1..] + s);
    }
  }

  /** What follows a token starts with a blank, or ends the line. */
  lemma TailStarts(tokens: seq<Line>, quoted: seq<bool>, gaps: seq<Line>)
    requires tokens != [] && Layout(tokens, quoted, gaps)
    ensures var rest := Written(tokens[1..], quoted[1..], gaps[1..]);
      Layout(tokens[1..], quoted[1..], gaps[1..]) && (rest != [] ==> Blank(rest[0]))
  {
    hide Spelling;
    assert |tokens| > 1 ==> gaps[1] != [];
    assert Gap(gaps[1]);
  }

  lemma {:induction false} WrittenIsRead(tokens: seq<Line>, quoted: seq<bool>, gaps: seq<Line>)
    requires Layout(tokens, quoted, gaps)
    ensures Tokens(Written(tokens, quoted, gaps)) == Some(tokens)
    decreases |tokens|
  {
    hide Quoted, Bare, Inside, Tokens;
    if tokens == [] {
      assert gaps[0] + [] == gaps[0];
      GapIsSkipped(gaps[0], []);
      TokensEmpty();
    } else {
      var t, rest := tokens[0], Written(tokens[1..], quoted[1..], gaps[1..]);
      TailStarts(tokens, quoted, gaps);
      WrittenIsRead(tokens[1..], quoted[1..], gaps[1..]);
      var word := Spelling(t, quoted[0]);
      assert gaps[0] + word + rest == gaps[0] + (word + rest);
      GapIsSkipped(gaps[0], word + rest);
      if quoted[0] {
        InsideIsEscape(t);
        TokensReadQuote(t, rest);
      } else {
        TokensReadBare(t, rest);
      }
      assert [t] + tokens[1..] == tokens;
    }
  }

  lemma {:induction false} SkippedIsGap(s: Line) returns (g: Line)
    ensures s == g + SkipBlanks(s) && Gap(g) && (s != [] && Blank(s[0]) ==> g != [])
  {
    if s != [] && Blank(s[0]) {
      var later := SkippedIsGap(s[1..]);
      g := [s[0]] + later;
      assert s == [s[0]] + s[1..];
    } else {
      g := [];
    }
  }

  lemma {:induction false} QuotedIsInside(s: Line, value: Line) returns (t: Line)
    requires Quoted(s, value).Some?
    ensures var (v, rest) := Quoted(s, value).value; v == value + t && Quotable(t) && s == Inside(t) + [34] + rest
    decreases |s|
  {
    if s[0] == 34 {
      t := [];
    } else if s[0] == 92 {
      var later := QuotedIsInside(s[2..], value + [s[1]]);
      t := [s[1]] + later;
      assert t[1..] == later && Inside(t) == [92, s[1]] + Inside(later);
    } else {
      var later := QuotedIsInside(s[1..], value + [s[0]]);
      t := [s[0]] + later;
      assert t[1..] == later && Inside(t) == [s[0]] + Inside(later);
    }
  }

  lemma {:induction false} BareIsPlain(s: Line)
    requires Bare(s).Some?
    ensures forall i :: 0 <= i < Bare(s).value ==> s[i] !in {0, 9, 10, 13, 32, 34}
    ensures Bare(s).value < |s| ==> Blank(s[Bare(s).value])
  {
    if s != [] && !Blank(s[0]) {
      BareIsPlain(s[1..]);
      forall i | 0 <= i < Bare(s).value
        ensures s[i] !in {0, 9, 10, 13, 32, 34}
      {
        if i > 0 {
          assert s[i] == s[1..][i - 1];
        }
      }
    }
  }

  lemma PutInFront(t: Line, q: bool, gap: Line, tokens: seq<Line>, quoted: seq<bool>, gaps: seq<Line>)
    requires Layout(tokens, quoted, gaps) && Gap(gap) && (tokens != [] ==> gaps[0] != [])
    requires if q then Quotable(t) else Unquotable(t)
    ensures Layout([t] + tokens, [q] + quoted, [gap] + gaps)
    ensures Written([t] + tokens, [q] + quoted, [gap] + gaps) == gap + Spelling(t, q) + Written(tokens, quoted, gaps)
  {
    hide Gap, Quotable, Unquotable, Spelling;
    assert ([t] + tokens)[1..] == tokens && ([q] + quoted)[1..] == quoted && ([gap] + gaps)[1..] == gaps;
  }

  lemma {:induction false} ReadIsWritten(line: Line) returns (quoted: seq<bool>, gaps: seq<Line>)
    requires Tokens(line).Some?
    ensures Layout(Tokens(line).value, quoted, gaps) && line == Written(Tokens(line).value, quoted, gaps)
    ensures line != [] && Blank(line[0]) ==> gaps[0] != []
    decreases |line|
  {
    hide Quotable, Unquotable, Layout, Written, FirstToken, Spelling, Quoted, Bare;
    var s := SkipBlanks(line);
    var gap := SkippedIsGap(line);
    SkippedTokens(line);
    if s == [] {
      quoted, gaps := [], [line];
      assert gap + [] == gap;
      OnlyGap(line);
    } else {
      var (t, q, rest) := FirstToken(s);
      FirstIsSpelled(s);
      var later, g := ReadIsWritten(rest);
      NoTokens(rest, later, g);
      quoted, gaps := [q] + later, [gap] + g;
      PutInFront(t, q, gap, Tokens(rest).value, later, g);
      assert line == gap + Spelling(t, q) + rest;
    }
  }

  /** The first token, whether it is in quotes, and what follows it. */
  function FirstToken(s: Line): (r: (Line, bool, Line))
    requires Tokens(s).Some? && s != [] && !Blank(s[0])
    ensures |r.2| < |s|
  {
    if s[0] == 34 then var (value, rest) := Quoted(s[1..], []).value; (value, true, rest)
    else (s[..Bare(s).value], false, s[Bare(s).value..])
  }

  lemma FirstIsSpelled(s: Line)
    requires Tokens(s).Some? && s != [] && !Blank(s[0])
    ensures var (t, q, rest) := FirstToken(s);
      && s == Spelling(t, q) + rest && (if q then Quotable(t) else Unquotable(t)) && (rest != [] ==> Blank(rest[0]))
      && Tokens(rest).Some? && Tokens(s).value == [t] + Tokens(rest).value
  {
    hide Quoted, Bare, Quotable, Unquotable, Inside;
    assert SkipBlanks(s) == s;
    if s[0] == 34 {
      var t := QuotedIsInside(s[1..], []);
      assert [] + t == t;
      assert s == [34] + s[1..];
    } else {
      var n := Bare(s).value;
      BareIsPlain(s);
      UnquotableStart(s, n);
      assert s == s[..n] + s[n..];
    }
  }

  lemma UnquotableStart(s: Line, n: nat)
    requires 0 < n <= |s| && forall i :: 0 <= i < n ==> s[i] !in {0, 9, 10, 13, 32, 34}
    ensures Unquotable(s[..n])
  {
  }

  lemma SkippedTokens(line: Line)
    ensures Tokens(SkipBlanks(line)) == Tokens(line)
    ensures SkipBlanks(line) == [] ==> Tokens(line) == Some([])
  {
    hide Quoted, Bare;
    var s := SkipBlanks(line);
    assert SkipBlanks(s) == s;
  }

  lemma OnlyGap(line: Line)
    requires Gap(line)
    ensures Layout([], [], [line]) && Written([], [], [line]) == line
  {
  }

  lemma NoTokens(rest: Line, quoted: seq<bool>, gaps: seq<Line>)
    requires Tokens(rest).Some? && (rest != [] ==> Blank(rest[0]))
    requires Layout(Tokens(rest).value, quoted, gaps) && (rest != [] && Blank(rest[0]) ==> gaps[0] != [])
    ensures Tokens(rest).value != [] ==> gaps[0] != []
  {
  }

  ghost predicate WrittenAs(line: Line, tokens: seq<Line>, quoted: seq<bool>, gaps: seq<Line>) {
    Layout(tokens, quoted, gaps) && line == Written(tokens, quoted, gaps)
  }

  /** A line is read as these tokens exactly when it is text and a way of writing them. */
  lemma LineExactly(line: Line, tokens: seq<Line>)
    ensures Parse(line) == Some(tokens) <==> IsText(line) && exists quoted, gaps :: WrittenAs(line, tokens, quoted, gaps)
  {
    hide Tokens, Layout, Written, ValidUtf8, IsText;
    TextExactly(line);
    if Tokens(line) == Some(tokens) {
      var quoted, gaps := ReadIsWritten(line);
      assert WrittenAs(line, tokens, quoted, gaps);
    }
    if quoted, gaps :| WrittenAs(line, tokens, quoted, gaps) {
      WrittenIsRead(tokens, quoted, gaps);
    }
  }

  // ---- Characters ----------------------------------------------------------------------------------------

  /** A Unicode character: no surrogate. */
  predicate Scalar(c: int) {
    0 <= c < 0xD800 || 0xE000 <= c < 0x11_0000
  }

  /** Its bytes. */
  function Utf8(c: int): (b: Line)
    requires Scalar(c)
    ensures 1 <= |b| <= 4
  {
    if c < 0x80 then [c]
    else if c < 0x800 then [0xC0 + c / 64, 0x80 + c % 64]
    else if c < 0x1_0000 then [0xE0 + c / 4096, 0x80 + c / 64 % 64, 0x80 + c % 64]
    else [0xF0 + c / 0x4_0000, 0x80 + c / 4096 % 64, 0x80 + c / 64 % 64, 0x80 + c % 64]
  }

  predicate Scalars(text: seq<int>) {
    forall i :: 0 <= i < |text| ==> Scalar(text[i])
  }

  function Utf8Of(text: seq<int>): Line
    requires Scalars(text)
  {
    if text == [] then [] else Utf8(text[0]) + Utf8Of(text[1..])
  }

  ghost predicate IsText(s: Line) {
    exists text :: Scalars(text) && Utf8Of(text) == s
  }

  lemma RuneOf(c: int, rest: Line)
    requires Scalar(c)
    ensures RuneSize(Utf8(c) + rest) == |Utf8(c)|
  {
    hide RuneSize;
    if c < 0x80 {
      LeadOne(c, rest);
    } else if c < 0x800 {
      LeadTwo(c / 64, c % 64, rest);
    } else if c < 0x1_0000 {
      assert c / 4096 == c / 64 / 64;
      LeadThree(c / 4096, c / 64 % 64, c % 64, rest);
    } else {
      assert c / 4096 == c / 64 / 64 && c / 0x4_0000 == c / 64 / 64 / 64;
      LeadFour(c / 0x4_0000, c / 4096 % 64, c / 64 % 64, c % 64, rest);
    }
  }

  lemma LeadOne(c: Byte, rest: Line)
    requires c < 0x80
    ensures RuneSize([c] + rest) == 1
  {
  }

  lemma LeadTwo(a: int, z: nat, rest: Line)
    requires 2 <= a < 32 && z < 64
    ensures RuneSize([0xC0 + a, 0x80 + z] + rest) == 2
  {
  }

  lemma LeadThree(a: int, y: nat, z: nat, rest: Line)
    requires 0 <= a < 16 && y < 64 && z < 64 && (a == 0 ==> y >= 32) && (a == 13 ==> y < 32)
    ensures RuneSize([0xE0 + a, 0x80 + y, 0x80 + z] + rest) == 3
  {
  }

  lemma LeadFour(a: int, x: nat, y: nat, z: nat, rest: Line)
    requires 0 <= a < 5 && x < 64 && y < 64 && z < 64 && (a == 0 ==> x >= 16) && (a == 4 ==> x < 16)
    ensures RuneSize([0xF0 + a, 0x80 + x, 0x80 + y, 0x80 + z] + rest) == 4
  {
  }

  lemma Digits(q: nat, r: nat)
    requires r < 64
    ensures (q * 64 + r) / 64 == q && (q * 64 + r) % 64 == r
  {
  }

  lemma SlicesAre(s: Line, n: nat)
    requires n <= |s| && n <= 4
    ensures n == 1 ==> s[..n] == [s[0]]
    ensures n == 2 ==> s[..n] == [s[0], s[1]]
    ensures n == 3 ==> s[..n] == [s[0], s[1], s[2]]
    ensures n == 4 ==> s[..n] == [s[0], s[1], s[2], s[3]]
  {
  }

  lemma ThreeBytes(a: int, y: nat, z: nat) returns (c: int)
    requires 0 <= a < 16 && y < 64 && z < 64 && (a == 0 ==> y >= 32) && (a == 13 ==> y < 32)
    ensures Scalar(c) && Utf8(c) == [0xE0 + a, 0x80 + y, 0x80 + z]
  {
    var high: nat := a * 64 + y;
    Digits(a, y);
    Digits(high, z);
    c := high * 64 + z;
    assert c / 4096 == high / 64;
  }

  lemma FourBytes(a: int, x: nat, y: nat, z: nat) returns (c: int)
    requires 0 <= a < 5 && x < 64 && y < 64 && z < 64 && (a == 0 ==> x >= 16) && (a == 4 ==> x < 16)
    ensures Scalar(c) && Utf8(c) == [0xF0 + a, 0x80 + x, 0x80 + y, 0x80 + z]
  {
    var top: nat := a * 64 + x;
    var high: nat := top * 64 + y;
    Digits(a, x);
    Digits(top, y);
    Digits(high, z);
    c := high * 64 + z;
    assert c / 4096 == high / 64 && c / 0x4_0000 == top / 64;
  }

  lemma RuneIs(s: Line) returns (c: int)
    requires s != [] && RuneSize(s) > 0
    ensures Scalar(c) && Utf8(c) == s[..RuneSize(s)]
  {
    hide Utf8, Scalar;
    var n := RuneSize(s);
    var a: int := s[0];
    SlicesAre(s, n);
    if n == 1 {
      c := a;
      Ascii(c);
    } else if n == 2 {
      c := TwoBytes(a - 0xC0, s[1] as int - 0x80);
    } else if n == 3 {
      c := ThreeBytes(a - 0xE0, s[1] as int - 0x80, s[2] as int - 0x80);
    } else {
      c := FourBytes(a - 0xF0, s[1] as int - 0x80, s[2] as int - 0x80, s[3] as int - 0x80);
    }
  }

  lemma Ascii(c: int)
    requires 0 <= c < 0x80
    ensures Scalar(c) && Utf8(c) == [c]
  {
  }

  lemma TwoBytes(a: int, z: nat) returns (c: int)
    requires 2 <= a < 32 && z < 64
    ensures Scalar(c) && Utf8(c) == [0xC0 + a, 0x80 + z]
  {
    Digits(a, z);
    c := a * 64 + z;
  }

  lemma {:induction false} TextIsValid(text: seq<int>)
    requires Scalars(text)
    ensures ValidUtf8(Utf8Of(text))
  {
    hide RuneSize, Utf8;
    if text != [] {
      var rest := Utf8Of(text[1..]);
      RuneOf(text[0], rest);
      TextIsValid(text[1..]);
      assert (Utf8(text[0]) + rest)[|Utf8(text[0])|..] == rest;
    }
  }

  lemma {:induction false} ValidIsText(s: Line) returns (text: seq<int>)
    requires ValidUtf8(s)
    ensures Scalars(text) && Utf8Of(text) == s
    decreases |s|
  {
    hide RuneSize, Utf8;
    if s == [] {
      text := [];
    } else {
      var n := RuneSize(s);
      var c := RuneIs(s);
      var rest := ValidIsText(s[n..]);
      text := [c] + rest;
      assert text[1..] == rest && s == s[..n] + s[n..];
    }
  }

  /** Valid UTF-8 is what some characters are written as. */
  lemma TextExactly(s: Line)
    ensures ValidUtf8(s) <==> IsText(s)
  {
    hide ValidUtf8;
    if ValidUtf8(s) {
      var text := ValidIsText(s);
    }
    if text :| Scalars(text) && Utf8Of(text) == s {
      TextIsValid(text);
    }
  }
}
