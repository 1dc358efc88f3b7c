/** The NUT line protocol: the tokenizer of responses and the quoting of request arguments, on UTF-8 text. */
module NutWire {
  import opened Basics

  type Line = seq<Byte>

  const QUOTE: Byte := 34
  const BACKSLASH: Byte := 92
  const SPACE: Byte := 32
  const TAB: Byte := 9

  predicate Blank(c: Byte) {
    c == SPACE || c == TAB
  }

  /** Bytes that may not occur in any token. */
  predicate Forbidden(c: Byte) {
    c == 13 || c == 10 || c == 0
  }

  predicate Escaped(c: Byte) {
    c == QUOTE || c == BACKSLASH
  }

  // ---- UTF-8 ---------------------------------------------------------------------------------------

  predicate Continuation(c: Byte) {
    0x80 <= c <= 0xBF
  }

  /** The allowed second bytes after each leading byte. */
  predicate SecondByte(lead: Byte, c: Byte) {
    if lead == 0xE0 then 0xA0 <= c <= 0xBF
    else if lead == 0xED then 0x80 <= c <= 0x9F
    else if lead == 0xF0 then 0x90 <= c <= 0xBF
    else if lead == 0xF4 then 0x80 <= c <= 0x8F
    else Continuation(c)
  }

  /** The number of bytes of the first character, or 0 when it is not valid. */
  function RuneSize(s: Line): (n: nat)
    requires s != []
    ensures n <= 4 && n <= |s|
    ensures n == 1 <==> s[0] < 0x80
    ensures forall i :: 0 <= i < n && n > 1 ==> s[i] >= 0x80
  {
    if s[0] < 0x80 then 1
    else if 0xC2 <= s[0] <= 0xDF then (if |s| >= 2 && SecondByte(s[0], s[1]) then 2 else 0)
    else if 0xE0 <= s[0] <= 0xEF then (if |s| >= 3 && SecondByte(s[0], s[1]) && Continuation(s[2]) then 3 else 0)
    else if 0xF0 <= s[0] <= 0xF4 then
      (if |s| >= 4 && SecondByte(s[0], s[1]) && Continuation(s[2]) && Continuation(s[3]) then 4 else 0)
    else 0
  }

  predicate ValidUtf8(s: Line)
    decreases |s|
  {
    s == [] || (RuneSize(s) > 0 && ValidUtf8(s[RuneSize(s)..]))
  }

  lemma RuneSizePrefix(a: Line, b: Line)
    requires a != [] && RuneSize(a) > 0
    ensures RuneSize(a + b) == RuneSize(a)
  {
  }

  lemma {:induction false} ValidConcat(a: Line, b: Line)
    requires ValidUtf8(a) && ValidUtf8(b)
    ensures ValidUtf8(a + b)
    decreases |a|
  {
    if a == [] {
      assert a + b == b;
    } else {
      var n := RuneSize(a);
      RuneSizePrefix(a, b);
      assert (a + b)[n..] == a[n..] + b;
      ValidConcat(a[n..], b);
    }
  }

  lemma RuneStops(s: Line, k: nat)
    requires 0 < k < |s| && s[k] < 0x80
    ensures RuneSize(s) <= k
  {
    hide SecondByte, Continuation;
  }

  /** A valid string can be cut before any ASCII byte. */
  lemma {:induction false} ValidCut(a: Line, b: Line)
    requires ValidUtf8(a + b) && (b == [] || b[0] < 0x80)
    ensures ValidUtf8(a) && ValidUtf8(b)
    decreases |a|
  {
    if a == [] {
      assert a + b == b;
    } else {
      var n := RuneSize(a + b);
      if b != [] {
        RuneStops(a + b, |a|);
      }
      RuneFits(a, b);
      assert (a + b)[n..] == a[n..] + b;
      ValidCut(a[n..], b);
    }
  }

  lemma RuneFits(a: Line, b: Line)
    requires a != [] && 0 < RuneSize(a + b) <= |a|
    ensures RuneSize(a) == RuneSize(a + b)
  {
  }

  // ---- The tokenizer -------------------------------------------------------------------------------

  function SkipBlanks(s: Line): (r: Line)
    ensures |r| <= |s| && (r != [] ==> !Blank(r[0]))
  {
    if s != [] && Blank(s[0]) then SkipBlanks(s[1..]) else s
  }

  /** The value and the rest after an opening quote. */
  function Quoted(s: Line, value: Line): (r: Option<(Line, Line)>)
    ensures r.Some? ==> |r.value.1| < |s|
    decreases |s|
  {
    if s == [] then None
    else if s[0] == QUOTE then Some((value, s[1..]))
    else if s[0] == BACKSLASH then
      if |s| < 2 || !Escaped(s[1]) then None else Quoted(s[2..], value + [s[1]])
    else if Forbidden(s[0]) then None
    else Quoted(s[1..], value + [s[0]])
  }

  /** The length of the unquoted token at the start, or None when it contains what it must not. */
  function Bare(s: Line): (r: Option<nat>)
    ensures r.Some? ==> r.value <= |s| && (s != [] && !Blank(s[0]) ==> r.value > 0)
    decreases |s|
  {
    if s == [] || Blank(s[0]) then Some(0)
    else if s[0] == QUOTE || Forbidden(s[0]) then None
    else match Bare(s[1..])
      case None => None
      case Some(n) => Some(n + 1)
  }

  function Prepend(token: Line, rest: Option<seq<Line>>): Option<seq<Line>> {
    if rest.None? then None else Some([token] + rest.value)
  }

  function Tokens(line: Line): Option<seq<Line>>
    decreases |line|
  {
    var s := SkipBlanks(line);
    if s == [] then Some([])
    else if s[0] == QUOTE then
      match Quoted(s[1..], [])
      case None => None
      case Some((value, rest)) => if rest != [] && !Blank(rest[0]) then None else Prepend(value, Tokens(rest))
    else
      match Bare(s)
      case None => None
      case Some(n) => Prepend(s[..n], Tokens(s[n..]))
  }

  function Parse(line: Line): Option<seq<Line>> {
    if ValidUtf8(line) then Tokens(line) else None
  }

  // ---- Quoting -------------------------------------------------------------------------------------

  function EscapeByte(c: Byte): Line {
    if Escaped(c) then [BACKSLASH, c] else [c]
  }

  function Escape(v: Line): Line {
    if v == [] then [] else EscapeByte(v[0]) + Escape(v[1..])
  }

  predicate NeedsQuotes(v: Line) {
    SPACE in v || TAB in v || QUOTE in v || BACKSLASH in v
  }

  function Quote(v: Line): Line {
    [QUOTE] + Escape(v) + [QUOTE]
  }

  const REPLACEMENT: Line := [0xEF, 0xBF, 0xBD]

  /** Escaping character by character; a byte that starts no valid character is replaced. */
  function EscapeRunes(v: Line): Line
    decreases |v|
  {
    if v == [] then [] else EscapeRune(v) + EscapeRunes(v[Width(v)..])
  }

  function Format(v: Line): Line {
    if NeedsQuotes(v) then [QUOTE] + EscapeRunes(v) + [QUOTE] else v
  }

  method FormatArgument(value: Line) returns (encoded: Line)
    ensures encoded == Format(value)
  {
    hide RuneSize, EscapeRune;
    if !(SPACE in value) && !(TAB in value) && !(QUOTE in value) && !(BACKSLASH in value) {
      return value;
    }
    encoded := [QUOTE];
    var position := 0;
    while position < |value|
      invariant position <= |value| && encoded + EscapeRunes(value[position..]) == [QUOTE] + EscapeRunes(value)
    {
      var rest := value[position..];
      RuneStep(encoded, rest);
      encoded := WriteEscaped(encoded, rest);
      assert value[position + Width(rest)..] == rest[Width(rest)..];
      position := position + Width(rest);
    }
    encoded := encoded + [QUOTE];
  }

  /** Writes the first character, with a backslash in front of a quote or a backslash. */
  method WriteEscaped(text: Line, rest: Line) returns (out: Line)
    requires rest != []
    ensures out == text + EscapeRune(rest)
  {
    out := text;
    var n := RuneSize(rest);
    if n == 1 && (rest[0] == QUOTE || rest[0] == BACKSLASH) {
      out := out + [BACKSLASH];
    }
    out := out + if n == 0 then REPLACEMENT else rest[..n];
  }

  /** The number of bytes taken for one character, and what is written for it. */
  function Width(s: Line): (n: nat)
    requires s != []
    ensures 0 < n <= |s|
  {
    if RuneSize(s) == 0 then 1 else RuneSize(s)
  }

  function EscapeRune(s: Line): Line
    requires s != []
  {
    if RuneSize(s) == 0 then REPLACEMENT
    else if RuneSize(s) == 1 then EscapeByte(s[0])
    else s[..RuneSize(s)]
  }

  lemma RuneStep(before: Line, rest: Line)
    requires rest != []
    ensures before + EscapeRunes(rest) == before + EscapeRune(rest) + EscapeRunes(rest[Width(rest)..])
  {
    hide RuneSize;
    assert EscapeRunes(rest) == EscapeRune(rest) + EscapeRunes(rest[Width(rest)..]);
  }

  /** What the client demands of a user name or password. */
  predicate ValidCredential(v: Line) {
    v != [] && |v| <= 4096 && ValidUtf8(v) && forall i :: 0 <= i < |v| ==> v[i] >= 0x20 && v[i] != 0x7f
  }

  predicate Clean(v: Line) {
    forall i :: 0 <= i < |v| ==> !Forbidden(v[i])
  }

  /** A keyword is written without quotes. */
  predicate Keyword(k: Line) {
    k != [] && ValidUtf8(k) && Clean(k) && forall i :: 0 <= i < |k| ==> !Blank(k[i]) && k[i] != QUOTE
  }

  lemma {:induction false} EscapeAppend(a: Line, b: Line)
    ensures Escape(a + b) == Escape(a) + Escape(b)
    decreases |a|
  {
    if a == [] {
      assert a + b == b;
    } else {
      assert (a + b)[1..] == a[1..] + b;
      EscapeAppend(a[1..], b);
    }
  }

  /** Escaping leaves characters above ASCII as they are. */
  lemma {:induction false} EscapeHigh(a: Line)
    requires forall i :: 0 <= i < |a| ==> a[i] >= 0x80
    ensures Escape(a) == a
  {
    if a != [] {
      EscapeHigh(a[1..]);
    }
  }

  lemma {:induction false} EscapeIsValid(v: Line)
    requires ValidUtf8(v)
    ensures ValidUtf8(Escape(v))
    decreases |v|
  {
    if v != [] {
      var n := RuneSize(v);
      EscapeIsValid(v[n..]);
      var first := v[..n];
      assert v == first + v[n..];
      EscapeAppend(first, v[n..]);
      if n == 1 {
        assert first == [v[0]] && Escape(first[1..]) == [];
        assert Escape(first) == EscapeByte(v[0]);
        AsciiIsValid(EscapeByte(v[0]));
      } else {
        EscapeHigh(first);
        RuneIsValid(v);
      }
      ValidConcat(Escape(first), Escape(v[n..]));
    }
  }

  lemma RuneIsValid(v: Line)
    requires v != [] && RuneSize(v) > 0
    ensures ValidUtf8(v[..RuneSize(v)])
  {
    var first := v[..RuneSize(v)];
    assert RuneSize(first) == |first|;
    assert first[|first|..] == [];
  }

  lemma {:induction false} AsciiIsValid(s: Line)
    requires forall i :: 0 <= i < |s| ==> s[i] < 0x80
    ensures ValidUtf8(s)
  {
    if s != [] {
      AsciiIsValid(s[1..]);
    }
  }

  /** Reading an escaped text up to its closing quote gives the text. */
  lemma {:induction false} QuotedReadsEscape(v: Line, value: Line, rest: Line)
    requires Clean(v)
    ensures Quoted(Escape(v) + [QUOTE] + rest, value) == Some((value + v, rest))
    decreases |v|
  {
    var s := Escape(v) + [QUOTE] + rest;
    if v == [] {
      assert s[0] == QUOTE && s[1..] == rest;
      assert value + v == value;
    } else {
      var later := Escape(v[1..]) + [QUOTE] + rest;
      assert s == EscapeByte(v[0]) + later;
      QuotedReadsEscape(v[1..], value + [v[0]], rest);
      assert value + [v[0]] + v[1..] == value + v;
      if Escaped(v[0]) {
        assert s[0] == BACKSLASH && s[1] == v[0] && s[2..] == later;
      } else {
        assert s[0] == v[0] && s[1..] == later;
      }
    }
  }

  lemma {:induction false} BareReadsToken(v: Line, rest: Line)
    requires Clean(v) && forall i :: 0 <= i < |v| ==> !Blank(v[i]) && v[i] != QUOTE
    requires rest != [] ==> Blank(rest[0])
    ensures Bare(v + rest) == Some(|v|)
    decreases |v|
  {
    if v == [] {
      assert v + rest == rest;
    } else {
      assert (v + rest)[1..] == v[1..] + rest;
      BareReadsToken(v[1..], rest);
    }
  }

  /** A quoted token in front of the rest of a line. */
  lemma TokensReadQuote(v: Line, rest: Line)
    requires Clean(v) && (rest != [] ==> Blank(rest[0]))
    ensures Tokens(Quote(v) + rest) == Prepend(v, Tokens(rest))
  {
    var s := Quote(v) + rest;
    assert s[0] == QUOTE && SkipBlanks(s) == s;
    assert s[1..] == Escape(v) + [QUOTE] + rest;
    QuotedReadsEscape(v, [], rest);
    assert [] + v == v;
  }

  lemma TokensReadBare(v: Line, rest: Line)
    requires v != [] && Clean(v) && forall i :: 0 <= i < |v| ==> !Blank(v[i]) && v[i] != QUOTE
    requires rest != [] ==> Blank(rest[0])
    ensures Tokens(v + rest) == Prepend(v, Tokens(rest))
  {
    var s := v + rest;
    assert !Blank(s[0]) && SkipBlanks(s) == s;
    BareReadsToken(v, rest);
    assert s[..|v|] == v && s[|v|..] == rest;
  }

  lemma LeadingSpace(s: Line)
    ensures Tokens([SPACE] + s) == Tokens(s)
  {
    assert ([SPACE] + s)[1..] == s;
  }

  // ---- What tokens are -----------------------------------------------------------------------------

  ghost predicate GoodToken(t: Line) {
    Clean(t) && ValidUtf8(t)
  }

  lemma {:induction false} QuotedIsClean(s: Line, value: Line)
    requires Quoted(s, value).Some? && Clean(value)
    ensures Clean(Quoted(s, value).value.0)
    decreases |s|
  {
    if s[0] == BACKSLASH {
      QuotedIsClean(s[2..], value + [s[1]]);
    } else if s[0] != QUOTE {
      QuotedIsClean(s[1..], value + [s[0]]);
    }
  }

  /** The bytes of a character above ASCII are read as they are. */
  lemma {:induction false} QuotedSkips(s: Line, n: nat, value: Line)
    requires n <= |s| && forall i :: 0 <= i < n ==> s[i] >= 0x80
    ensures Quoted(s, value) == Quoted(s[n..], value + s[..n])
    decreases n
  {
    if n == 0 {
      assert s[0..] == s && value + s[..0] == value;
    } else {
      QuotedSkips(s[1..], n - 1, value + [s[0]]);
      assert s[1..][n - 1..] == s[n..];
      assert value + [s[0]] + s[1..][..n - 1] == value + s[..n];
    }
  }

  lemma {:induction false} QuotedIsValid(s: Line, value: Line)
    requires Quoted(s, value).Some? && ValidUtf8(value) && ValidUtf8(s)
    ensures var (v, rest) := Quoted(s, value).value; ValidUtf8(v) && ValidUtf8(rest)
    decreases |s|
  {
    var n := RuneSize(s);
    if s[0] == BACKSLASH {
      assert s[1..] != [] && RuneSize(s[1..]) == 1 && s[1..][1..] == s[2..];
      AsciiIsValid([s[1]]);
      ValidConcat(value, [s[1]]);
      QuotedIsValid(s[2..], value + [s[1]]);
    } else if s[0] != QUOTE {
      RuneIsValid(s);
      ValidConcat(value, s[..n]);
      if n == 1 {
        assert s[..1] == [s[0]];
      } else {
        QuotedSkips(s, n, value);
      }
      QuotedIsValid(s[n..], value + s[..n]);
    }
  }

  lemma {:induction false} BareIsClean(s: Line)
    requires Bare(s).Some?
    ensures var n := Bare(s).value; Clean(s[..n]) && (n == |s| || Blank(s[n]))
    decreases |s|
  {
    if s != [] && !Blank(s[0]) {
      BareIsClean(s[1..]);
      var n := Bare(s).value;
      assert s[..n] == [s[0]] + s[1..][..n - 1];
    }
  }

  lemma {:induction false} SkippingKeepsValid(s: Line)
    requires ValidUtf8(s)
    ensures ValidUtf8(SkipBlanks(s))
    decreases |s|
  {
    if s != [] && Blank(s[0]) {
      SkippingKeepsValid(s[1..]);
    }
  }

  /** Every token of a line is valid UTF-8 without line breaks and zero bytes. */
  lemma {:induction false} TokensAreGood(line: Line)
    requires ValidUtf8(line) && Tokens(line).Some?
    ensures forall i :: 0 <= i < |Tokens(line).value| ==> GoodToken(Tokens(line).value[i])
    decreases |line|
  {
    hide GoodToken, ValidUtf8;
    var s := SkipBlanks(line);
    SkippingKeepsValid(line);
    if s != [] {
      if s[0] == QUOTE {
        DropAscii(s);
        QuotedIsClean(s[1..], []);
        EmptyIsValid();
        QuotedIsValid(s[1..], []);
        var (value, rest) := Quoted(s[1..], []).value;
        Good(value);
        TokensAreGood(rest);
      } else {
        var n := Bare(s).value;
        BareIsClean(s);
        assert s == s[..n] + s[n..];
        ValidCut(s[..n], s[n..]);
        Good(s[..n]);
        TokensAreGood(s[n..]);
      }
    }
  }

  lemma DropAscii(s: Line)
    requires ValidUtf8(s) && s != [] && s[0] < 0x80
    ensures ValidUtf8(s[1..])
  {
  }

  lemma EmptyIsValid()
    ensures ValidUtf8([])
  {
  }

  lemma Good(t: Line)
    requires Clean(t) && ValidUtf8(t)
    ensures GoodToken(t)
  {
  }

  // ---- Round trips ---------------------------------------------------------------------------------

  lemma TokensEmpty()
    ensures Tokens([]) == Some([])
  {
  }

  lemma PlainIsUnquoted(v: Line)
    requires !NeedsQuotes(v)
    ensures forall i :: 0 <= i < |v| ==> !Blank(v[i]) && v[i] != QUOTE
  {
  }

  /** On valid text, escaping by characters and by bytes is the same. */
  lemma {:induction false} RunesAreBytes(v: Line)
    requires ValidUtf8(v)
    ensures EscapeRunes(v) == Escape(v)
    decreases |v|
  {
    if v != [] {
      var n := RuneSize(v);
      assert v == v[..n] + v[n..];
      EscapeAppend(v[..n], v[n..]);
      RunesAreBytes(v[n..]);
      if n == 1 {
        assert v[..1][1..] == [];
        assert Escape(v[..1]) == EscapeByte(v[0]) + Escape([]);
      } else {
        EscapeHigh(v[..n]);
      }
    }
  }

  lemma FormatIsValid(v: Line)
    requires ValidUtf8(v)
    ensures ValidUtf8(Format(v)) && (NeedsQuotes(v) ==> Format(v) == Quote(v))
  {
    hide ValidUtf8;
    if NeedsQuotes(v) {
      RunesAreBytes(v);
      QuoteIsValid(v);
    }
  }

  /** The line is the keyword, a space and the formatted argument, and it is valid UTF-8. */
  lemma ArgumentLine(k: Line, v: Line)
    requires Keyword(k) && ValidUtf8(v)
    ensures ValidUtf8(k + [SPACE] + Format(v))
    ensures Tokens(k + [SPACE] + Format(v)) == Prepend(k, Tokens(Format(v)))
  {
    hide ValidUtf8, Format, Bare, Tokens;
    FormatIsValid(v);
    AsciiIsValid([SPACE]);
    ValidConcat(k, [SPACE]);
    ValidConcat(k + [SPACE], Format(v));
    assert k + [SPACE] + Format(v) == k + ([SPACE] + Format(v));
    TokensReadBare(k, [SPACE] + Format(v));
    LeadingSpace(Format(v));
  }

  lemma FormatReadsBack(v: Line)
    requires v != [] && Clean(v) && ValidUtf8(v)
    ensures Tokens(Format(v)) == Some([v])
  {
    hide Escape, EscapeRunes, Tokens, NeedsQuotes, ValidUtf8;
    TokensEmpty();
    FormatIsValid(v);
    assert Format(v) + [] == Format(v);
    if NeedsQuotes(v) {
      TokensReadQuote(v, []);
    } else {
      PlainIsUnquoted(v);
      TokensReadBare(v, []);
    }
    assert [v] + [] == [v];
  }

  /** A formatted argument behind a keyword is read back exactly - the keyword and the argument, nothing else - if and
      only if the argument is not empty, is valid UTF-8, and holds no line break or zero byte. */
  lemma ArgumentRoundTrip(k: Line, v: Line)
    requires Keyword(k)
    ensures Parse(k + [SPACE] + Format(v)) == Some([k, v]) <==> v != [] && Clean(v) && ValidUtf8(v)
  {
    hide ValidUtf8, Tokens, Format, Keyword, Clean;
    var line := k + [SPACE] + Format(v);
    if Parse(line) == Some([k, v]) {
      TokensAreGood(line);
      assert GoodToken([k, v][1]);
    }
    if v == [] {
      EmptyIsPlain();
      EmptyIsValid();
      ArgumentLine(k, v);
      TokensEmpty();
    } else if Clean(v) && ValidUtf8(v) {
      ArgumentLine(k, v);
      FormatReadsBack(v);
      assert [k] + [v] == [k, v];
    }
  }

  lemma EmptyIsPlain()
    ensures Format([]) == []
  {
  }

  /** In particular every valid credential reaches the server's tokenizer unchanged. */
  lemma CredentialRoundTrip(k: Line, v: Line)
    requires Keyword(k) && ValidCredential(v)
    ensures Parse(k + [SPACE] + Format(v)) == Some([k, v])
  {
    hide ValidUtf8;
    ArgumentRoundTrip(k, v);
  }

  function Join(tokens: seq<Line>): Line {
    if tokens == [] then [] else Quote(tokens[0]) + (if |tokens| == 1 then [] else [SPACE] + Join(tokens[1..]))
  }

  lemma {:induction false} JoinReadsBack(tokens: seq<Line>)
    requires forall i :: 0 <= i < |tokens| ==> GoodToken(tokens[i])
    ensures Parse(Join(tokens)) == Some(tokens)
    decreases |tokens|
  {
    hide ValidUtf8, Escape, Tokens;
    if tokens == [] {
      TokensEmpty();
      EmptyIsValid();
    } else {
      var t, later := tokens[0], tokens[1..];
      JoinReadsBack(later);
      var rest := if |tokens| == 1 then [] else [SPACE] + Join(later);
      assert GoodToken(t);
      QuoteIsValid(t);
      TokensReadQuote(t, rest);
      if |tokens| > 1 {
        LeadingSpace(Join(later));
        AsciiIsValid([SPACE]);
        ValidConcat([SPACE], Join(later));
      } else {
        EmptyIsValid();
        TokensEmpty();
      }
      ValidConcat(Quote(t), rest);
      assert [t] + later == tokens;
    }
  }

  lemma QuoteIsValid(t: Line)
    requires ValidUtf8(t)
    ensures ValidUtf8(Quote(t))
  {
    EscapeIsValid(t);
    AsciiIsValid([QUOTE]);
    ValidConcat([QUOTE], Escape(t));
    ValidConcat([QUOTE] + Escape(t), [QUOTE]);
  }

  /** The tokens of any accepted line, quoted again, are read back as themselves. */
  lemma TokensRequote(line: Line)
    requires Parse(line).Some?
    ensures Parse(Join(Parse(line).value)) == Parse(line)
  {
    hide ValidUtf8, Tokens, Join;
    TokensAreGood(line);
    JoinReadsBack(Tokens(line).value);
  }

  // ---- The loops of the source ---------------------------------------------------------------------

  function After(tokens: seq<Line>, rest: Option<seq<Line>>): (r: Option<seq<Line>>)
    ensures rest.None? ==> r.None?
  {
    if rest.None? then None else Some(tokens + rest.value)
  }

  lemma AfterNothing(rest: Option<seq<Line>>)
    ensures After([], rest) == rest
  {
    if rest.Some? {
      assert [] + rest.value == rest.value;
    }
  }

  /** One more token. */
  lemma AfterEnd(tokens: seq<Line>)
    ensures After(tokens, Some([])) == Some(tokens)
  {
    assert tokens + [] == tokens;
  }

  lemma AfterPrepend(tokens: seq<Line>, t: Line, rest: Option<seq<Line>>)
    ensures After(tokens, Prepend(t, rest)) == After(tokens + [t], rest)
  {
    if rest.Some? {
      assert tokens + ([t] + rest.value) == tokens + [t] + rest.value;
    }
  }

  /** A blank in front changes nothing. */
  lemma BlankSkipped(s: Line)
    requires s != [] && Blank(s[0])
    ensures Tokens(s) == Tokens(s[1..])
  {
  }

  method ParseLine(line: Line) returns (r: Option<seq<Line>>)
    ensures r == Parse(line)
  {
    hide ValidUtf8, Bare, Quoted, After, Prepend;
    if !ValidUtf8(line) {
      return None;
    }
    var tokens, position: nat := [], 0;
    assert line[0..] == line;
    AfterNothing(Tokens(line));
    while true
      invariant position <= |line| && Parse(line) == After(tokens, Tokens(line[position..]))
      decreases |line| - position
    {
      position := SkipFrom(line, position);
      if position == |line| {
        TokensEmpty();
        AfterEnd(tokens);
        return Some(tokens);
      }
      ghost var start := line[position..];
      if line[position] == QUOTE {
        var value, next := ReadQuoted(line, position + 1);
        assert start[1..] == line[position + 1..];
        if value.None? {
          return None;
        }
        position := next;
        if position < |line| && !Blank(line[position]) {
          return None;
        }
        AfterPrepend(tokens, value.value, Tokens(line[position..]));
        tokens := tokens + [value.value];
      } else {
        var end := ReadBare(line, position);
        if end.None? {
          return None;
        }
        assert start[..end.value - position] == line[position..end.value];
        assert start[end.value - position..] == line[end.value..];
        AfterPrepend(tokens, line[position..end.value], Tokens(line[end.value..]));
        tokens := tokens + [line[position..end.value]];
        position := end.value;
      }
    }
  }

  method SkipFrom(line: Line, from: nat) returns (position: nat)
    requires from <= |line|
    ensures from <= position <= |line| && line[position..] == SkipBlanks(line[from..])
    ensures Tokens(line[position..]) == Tokens(line[from..])
  {
    hide Tokens;
    position := from;
    while position < |line| && Blank(line[position])
      invariant from <= position <= |line| && SkipBlanks(line[position..]) == SkipBlanks(line[from..])
      invariant Tokens(line[position..]) == Tokens(line[from..])
    {
      BlankSkipped(line[position..]);
      position := position + 1;
    }
  }

  method ReadQuoted(line: Line, from: nat) returns (value: Option<Line>, next: nat)
    requires from <= |line|
    ensures from <= next <= |line|
    ensures Quoted(line[from..], []) == if value.Some? then Some((value.value, line[next..])) else None
    ensures value.Some? ==> next > from
  {
    var position, text, closed := from, [], false;
    while position < |line| && !closed
      invariant from <= position <= |line| && (closed ==> position > from)
      invariant Quoted(line[from..], []) == if closed then Some((text, line[position..])) else Quoted(line[position..], text)
      decreases |line| - position, !closed
    {
      var character := line[position];
      position := position + 1;
      if character == QUOTE {
        closed := true;
      } else if character == BACKSLASH {
        if position >= |line| || (line[position] != BACKSLASH && line[position] != QUOTE) {
          return None, position;
        }
        text := text + [line[position]];
        position := position + 1;
      } else if character == 13 || character == 10 || character == 0 {
        return None, position;
      } else {
        text := text + [character];
      }
    }
    return if closed then Some(text) else None, position;
  }

  method ReadBare(line: Line, from: nat) returns (end: Option<nat>)
    requires from < |line| && !Blank(line[from])
    ensures end.Some? ==> from < end.value <= |line|
    ensures Bare(line[from..]) == if end.Some? then Some(end.value - from) else None
  {
    var position := from;
    ghost var whole := Bare(line[from..]);
    while position < |line| && !Blank(line[position])
      invariant from <= position <= |line|
      invariant var later := Bare(line[position..]);
        if later.None? then whole.None? else whole == Some(position - from + later.value)
    {
      if line[position] == QUOTE || Forbidden(line[position]) {
        return None;
      }
      assert line[position..][1..] == line[position + 1..];
      position := position + 1;
    }
    return Some(position);
  }
}
