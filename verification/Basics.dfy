/** Option and Result values, bytes, and the pieces of text handling that several components share.
    A Go string is a sequence of bytes; it is modelled as a Dafny string whose characters are those
    bytes, so that |s| is Go's len(s). */
module Basics {
  datatype Option<+T> = None | Some(value: T)

  datatype Result<+T, +E> = Ok(value: T) | Err(error: E)

  type Byte = b: int | 0 <= b < 256

  /** Big-endian encodings used by every wire format of the repository. */
  function U16(v: int): (b: seq<Byte>)
    requires 0 <= v < 0x1_0000
    ensures |b| == 2
  {
    [v / 256, v % 256]
  }

  function U16At(b: seq<Byte>): (v: int)
    requires |b| == 2
    ensures 0 <= v < 0x1_0000
  {
    (b[0] as int) * 256 + (b[1] as int)
  }

  function U32(v: int): (b: seq<Byte>)
    requires 0 <= v < 0x1_0000_0000
    ensures |b| == 4
  {
    [v / 0x100_0000, v / 0x1_0000 % 256, v / 256 % 256, v % 256]
  }

  function U32At(b: seq<Byte>): (v: int)
    requires |b| == 4
    ensures 0 <= v < 0x1_0000_0000
  {
    (b[0] as int) * 0x100_0000 + (b[1] as int) * 0x1_0000 + (b[2] as int) * 256 + (b[3] as int)
  }

  // Where Go's unsigned integers wrap.
  const U32_WRAP := 0x1_0000_0000
  const U64_WRAP := 0x1_0000_0000_0000_0000

  // Times and durations are nanoseconds; 0 is Go's zero time.
  const SECOND := 1_000_000_000

  /** Go's copy into a buffer at an offset. */
  method CopyInto(p: array<Byte>, at: nat, bytes: seq<Byte>)
    requires at + |bytes| <= p.Length
    modifies p
    ensures forall i :: at <= i < at + |bytes| ==> p[i] == bytes[i - at]
    ensures forall i :: 0 <= i < p.Length && (i < at || at + |bytes| <= i) ==> p[i] == old(p[i])
  {
    for k := 0 to |bytes|
      invariant forall i :: at <= i < at + k ==> p[i] == bytes[i - at]
      invariant forall i :: 0 <= i < p.Length && (i < at || at + k <= i) ==> p[i] == old(p[i])
    {
      p[at + k] := bytes[k];
    }
  }

  /** Reading back what the big-endian writers wrote, and writing back what was read. */
  lemma U16RoundTrip(v: int, b: seq<Byte>)
    requires 0 <= v < 0x1_0000 && |b| == 2
    ensures U16At(U16(v)) == v
    ensures 0 <= U16At(b) < 0x1_0000 && U16(U16At(b)) == b
  {
  }

  lemma U32RoundTrip(v: int)
    requires 0 <= v < 0x1_0000_0000
    ensures U32At(U32(v)) == v
  {
    assert v / 256 == v / 0x1_0000 * 256 + v / 256 % 256;
    assert v / 0x1_0000 == v / 0x100_0000 * 256 + v / 0x1_0000 % 256;
  }

  lemma DigitOff(q: nat, r: nat)
    requires r < 256
    ensures (q * 256 + r) / 256 == q && (q * 256 + r) % 256 == r
  {
  }

  lemma U32Inverse(b: seq<Byte>)
    requires |b| == 4
    ensures U32(U32At(b)) == b
  {
    var v: nat, half: nat := U32At(b), b[0] as nat * 256 + b[1] as nat;
    var high := half * 256 + b[2] as nat;
    DigitOff(high, b[3] as nat);
    DigitOff(half, b[2] as nat);
    DigitOff(b[0] as nat, b[1] as nat);
    assert v / 256 == high && v / 0x1_0000 == high / 256 && v / 0x100_0000 == half / 256;
  }
}

/** Text operations with the meaning of Go's strings package; comparison without regard to case is the ASCII one. */
module Text {
  import opened Basics

  function LowerChar(c: char): char {
    if 'A' <= c <= 'Z' then (c as int + 32) as char else c
  }

  function ToLower(s: string): string {
    seq(|s|, i requires 0 <= i < |s| => LowerChar(s[i]))
  }

  predicate EqualFold(a: string, b: string) {
    ToLower(a) == ToLower(b)
  }

  /** Token characters of the controller protocol: letters, digits, '-', '_' and '.'. */
  predicate TokenChar(c: char) {
    'a' <= c <= 'z' || 'A' <= c <= 'Z' || '0' <= c <= '9' || c == '-' || c == '_' || c == '.'
  }

  predicate ValidToken(s: string, max: nat) {
    0 < |s| <= max && forall i :: 0 <= i < |s| ==> TokenChar(s[i])
  }

  /** Non-empty, bounded text without control characters: validConfigValue, safeText and validText. */
  predicate ValidConfigValue(s: string, max: nat) {
    0 < |s| <= max && forall i :: 0 <= i < |s| ==> s[i] >= ' ' && s[i] as int != 0x7f
  }

  /** strings.Split with a one-byte separator. */
  function Split(s: string, sep: char): (parts: seq<string>)
    ensures |parts| >= 1
    ensures s == "" ==> parts == [""]
  {
    if s == "" then [""]
    else if s[0] == sep then [""] + Split(s[1..], sep)
    else var rest := Split(s[1..], sep); [[s[0]] + rest[0]] + rest[1..]
  }

  /** Characters removed from both ends of a line: the cutset " \t", or the ASCII part of white space. */
  predicate IsBlank(c: char, anySpace: bool) {
    c == ' ' || c == '\t' || (anySpace && (c == '\n' || c == '\r' || c as int == 11 || c as int == 12))
  }

  /** The byte at an index, as a number; 0 past the end. */
  function At(s: string, i: nat): nat {
    if i < |s| then s[i] as nat else 0
  }

  /** The number of bytes of the white space character at the start of UTF-8 text, or 0. */
  function SpaceSize(s: string): (n: nat)
    ensures n <= |s| && (n == 1 <==> s != "" && IsBlank(s[0], true))
    ensures n > 1 ==> At(s, 0) >= 0x80 && At(s, n - 1) >= 0x80
  {
    if s == "" then 0
    else if IsBlank(s[0], true) then 1
    else if At(s, 0) == 0xC2 && (At(s, 1) == 0x85 || At(s, 1) == 0xA0) then 2
    else if At(s, 0) == 0xE1 && At(s, 1) == 0x9A && At(s, 2) == 0x80 then 3
    else if At(s, 0) == 0xE2 && At(s, 1) == 0x80 && 0x80 <= At(s, 2) <= 0x8A then 3
    else if At(s, 0) == 0xE2 && At(s, 1) == 0x80 && (At(s, 2) == 0xA8 || At(s, 2) == 0xA9 || At(s, 2) == 0xAF) then 3
    else if At(s, 0) == 0xE2 && At(s, 1) == 0x81 && At(s, 2) == 0x9F then 3
    else if At(s, 0) == 0xE3 && At(s, 1) == 0x80 && At(s, 2) == 0x80 then 3
    else 0
  }

  /** Bytes to remove at the start of a text. */
  function BlankStart(s: string, anySpace: bool): (n: nat)
    ensures n <= |s| && (n == 1 <==> s != "" && IsBlank(s[0], anySpace))
    ensures s != "" && s[0] as int < 0x80 ==> n <= 1
  {
    if anySpace then SpaceSize(s) else if s != "" && IsBlank(s[0], false) then 1 else 0
  }

  /** Bytes to remove at the end of a text. */
  function BlankEnd(s: string, anySpace: bool): (n: nat)
    ensures n <= |s| && (n == 1 <==> s != "" && IsBlank(s[|s| - 1], anySpace))
    ensures s != "" && s[|s| - 1] as int < 0x80 ==> n <= 1
  {
    if s == "" then 0
    else if IsBlank(s[|s| - 1], anySpace) then 1
    else if anySpace && |s| >= 2 && SpaceSize(s[|s| - 2..]) == 2 then 2
    else if anySpace && |s| >= 3 && SpaceSize(s[|s| - 3..]) == 3 then 3
    else 0
  }

  function TrimLeft(s: string, anySpace: bool): (t: string)
    ensures |t| <= |s|
    decreases |s|
  {
    if BlankStart(s, anySpace) > 0 then TrimLeft(s[BlankStart(s, anySpace)..], anySpace) else s
  }

  function TrimRight(s: string, anySpace: bool): (t: string)
    ensures |t| <= |s|
    decreases |s|
  {
    if BlankEnd(s, anySpace) > 0 then TrimRight(s[..|s| - BlankEnd(s, anySpace)], anySpace) else s
  }

  /** Trim(s, " \t"), or TrimSpace(s) with Unicode white space. */
  function Trim(s: string, anySpace: bool): (t: string)
    ensures |t| <= |s|
  {
    TrimRight(TrimLeft(s, anySpace), anySpace)
  }

  /** strings.Cut at the first '='. */
  function Cut(s: string): (r: Option<(string, string)>)
    ensures r.Some? ==> s == r.value.0 + "=" + r.value.1 && '=' !in r.value.0
    ensures r.None? <==> '=' !in s
  {
    if s == "" then None
    else if s[0] == '=' then Some(("", s[1..]))
    else match Cut(s[1..])
      case None => None
      case Some((name, value)) => Some(([s[0]] + name, value))
  }

  /** What trimming returns is a middle part of its argument with no blank at either end. */
  lemma TrimIsCore(s: string, anySpace: bool)
    ensures var t := Trim(s, anySpace);
      && (forall c :: c in t ==> c in s)
      && (t != "" ==> !IsBlank(t[0], anySpace) && !IsBlank(t[|t| - 1], anySpace))
  {
    TrimLeftIsCore(s, anySpace);
    TrimRightIsCore(TrimLeft(s, anySpace), anySpace);
  }

  lemma DropDrop(s: string, n: nat, m: nat)
    requires n + m <= |s|
    ensures s[n..][m..] == s[n + m..]
  {
  }

  lemma {:induction false} TrimLeftIsCore(s: string, anySpace: bool)
    ensures var t := TrimLeft(s, anySpace); t == s[|s| - |t|..] && (t != "" ==> !IsBlank(t[0], anySpace))
    decreases |s|
  {
    hide SpaceSize, IsBlank, BlankStart;
    var n := BlankStart(s, anySpace);
    if n > 0 {
      var rest := s[n..];
      TrimLeftIsCore(rest, anySpace);
      DropDrop(s, n, |rest| - |TrimLeft(rest, anySpace)|);
    }
  }

  lemma {:induction false} TrimRightIsCore(s: string, anySpace: bool)
    ensures var t := TrimRight(s, anySpace); t == s[..|t|] && (t != "" ==> !IsBlank(t[|t| - 1], anySpace))
    decreases |s|
  {
    hide SpaceSize, IsBlank, BlankEnd;
    var n := BlankEnd(s, anySpace);
    if n > 0 {
      TrimRightIsCore(s[..|s| - n], anySpace);
      var t := TrimRight(s[..|s| - n], anySpace);
      assert s[..|s| - n][..|t|] == s[..|t|];
    }
  }

  /** Both ways of trimming agree on ASCII text whose only blanks are spaces and tabs. */
  predicate SimpleBlanks(s: string) {
    forall i :: 0 <= i < |s| ==> s[i] as int < 0x80 && (IsBlank(s[i], true) ==> IsBlank(s[i], false))
  }

  lemma TrimAgrees(s: string)
    requires SimpleBlanks(s)
    ensures Trim(s, true) == Trim(s, false)
  {
    TrimLeftAgrees(s);
    TrimLeftIsCore(s, false);
    TrimRightAgrees(TrimLeft(s, false));
  }

  lemma {:induction false} TrimLeftAgrees(s: string)
    requires SimpleBlanks(s)
    ensures TrimLeft(s, true) == TrimLeft(s, false)
    decreases |s|
  {
    hide SpaceSize;
    if s != "" {
      if IsBlank(s[0], true) {
        assert BlankStart(s, true) == BlankStart(s, false) == 1;
        TrimLeftAgrees(s[1..]);
      }
    }
  }

  lemma {:induction false} TrimRightAgrees(s: string)
    requires SimpleBlanks(s)
    ensures TrimRight(s, true) == TrimRight(s, false)
    decreases |s|
  {
    hide SpaceSize;
    if s != "" {
      if IsBlank(s[|s| - 1], true) {
        assert BlankEnd(s, true) == BlankEnd(s, false) == 1;
        TrimRightAgrees(s[..|s| - 1]);
      }
    }
  }

  /** An ASCII character that is not blank survives trimming spaces and tabs. */
  lemma TrimKeeps(s: string, c: char)
    requires c in s && !IsBlank(c, false)
    ensures c in Trim(s, false)
  {
    TrimLeftKeeps(s, c);
    TrimRightKeeps(TrimLeft(s, false), c);
  }

  lemma {:induction false} TrimLeftKeeps(s: string, c: char)
    requires c in s && !IsBlank(c, false)
    ensures c in TrimLeft(s, false)
    decreases |s|
  {
    if IsBlank(s[0], false) {
      TrimLeftKeeps(s[1..], c);
    }
  }

  lemma {:induction false} TrimRightKeeps(s: string, c: char)
    requires c in s && !IsBlank(c, false)
    ensures c in TrimRight(s, false)
    decreases |s|
  {
    if IsBlank(s[|s| - 1], false) {
      TrimRightKeeps(s[..|s| - 1], c);
    }
  }

  /** strings.ToLower, exactly as far as comparison with ASCII words goes: U+0130 and U+212A lower to i and k, every
      other character above ASCII stays above it. */
  function LowerWord(s: string): string {
    if s == "" then ""
    else if At(s, 0) == 0xC4 && At(s, 1) == 0xB0 then "i" + LowerWord(s[2..])
    else if At(s, 0) == 0xE2 && At(s, 1) == 0x84 && At(s, 2) == 0xAA then "k" + LowerWord(s[3..])
    else [LowerChar(s[0])] + LowerWord(s[1..])
  }

  lemma {:induction false} LowerWordOfAscii(s: string)
    requires forall i :: 0 <= i < |s| ==> s[i] as int < 0x80
    ensures LowerWord(s) == ToLower(s)
  {
    if s != "" {
      LowerWordOfAscii(s[1..]);
      assert ToLower(s) == [LowerChar(s[0])] + ToLower(s[1..]);
    }
  }
}

/** Comparison without regard to case, character by character. */
module Letters {
  import opened Text

  /** The same letter, capital or small. */
  predicate SameLetter(a: char, b: char) {
    a == b || ('A' <= a <= 'Z' && b as int == a as int + 32) || ('A' <= b <= 'Z' && a as int == b as int + 32)
  }

  predicate SameLetters(a: string, b: string) {
    |a| == |b| && forall i :: 0 <= i < |a| ==> SameLetter(a[i], b[i])
  }

  lemma FoldIsLetters(a: string, b: string)
    ensures EqualFold(a, b) <==> SameLetters(a, b)
  {
    if EqualFold(a, b) {
      assert |a| == |ToLower(a)| == |ToLower(b)| == |b|;
      forall i | 0 <= i < |a|
        ensures SameLetter(a[i], b[i])
      {
        assert LowerChar(a[i]) == ToLower(a)[i] == ToLower(b)[i] == LowerChar(b[i]);
      }
    }
    if SameLetters(a, b) {
      forall i | 0 <= i < |a|
        ensures ToLower(a)[i] == ToLower(b)[i]
      {
        assert SameLetter(a[i], b[i]);
      }
    }
  }

  /** A byte sequence spells a word: letter by letter in either case, or with U+0130 for an i and U+212A for a k. */
  predicate Spells(s: string, word: string) {
    if word == "" then s == ""
    else
      || (s != "" && SameLetter(s[0], word[0]) && Spells(s[1..], word[1..]))
      || (word[0] == 'i' && |s| >= 2 && s[0] as int == 0xC4 && s[1] as int == 0xB0 && Spells(s[2..], word[1..]))
      || (word[0] == 'k' && |s| >= 3 && s[0] as int == 0xE2 && s[1] as int == 0x84 && s[2] as int == 0xAA && Spells(s[3..], word[1..]))
  }

  /** Small letters, digits and other ASCII characters, but no capitals. */
  predicate SmallAscii(word: string) {
    forall i :: 0 <= i < |word| ==> word[i] as int < 0x80 && !('A' <= word[i] <= 'Z')
  }

  /** Lowering a text gives this letter and then the rest of the word. */
  lemma LowerStep(s: string, c: char, word: string)
    requires s != "" && c as int < 0x80 && !('A' <= c <= 'Z')
    ensures LowerWord(s) == [c] + word <==>
      || (SameLetter(s[0], c) && LowerWord(s[1..]) == word)
      || (c == 'i' && |s| >= 2 && s[0] as int == 0xC4 && s[1] as int == 0xB0 && LowerWord(s[2..]) == word)
      || (c == 'k' && |s| >= 3 && s[0] as int == 0xE2 && s[1] as int == 0x84 && s[2] as int == 0xAA && LowerWord(s[3..]) == word)
  {
    var t := [c] + word;
    assert t[0] == c && t[1..] == word;
    var (first, size) := if At(s, 0) == 0xC4 && At(s, 1) == 0xB0 then ('i', 2)
                         else if At(s, 0) == 0xE2 && At(s, 1) == 0x84 && At(s, 2) == 0xAA then ('k', 3)
                         else (LowerChar(s[0]), 1);
    var rest := LowerWord(s[size..]);
    assert LowerWord(s) == [first] + rest;
    assert ([first] + rest)[0] == first && ([first] + rest)[1..] == rest;
  }

  lemma {:induction false} SpellsExactly(s: string, word: string)
    requires SmallAscii(word)
    ensures LowerWord(s) == word <==> Spells(s, word)
    decreases |s|
  {
    hide LowerWord, SameLetter;
    if s != "" && word != "" {
      var rest := word[1..];
      assert forall i :: 0 <= i < |rest| ==> rest[i] == word[i + 1];
      LowerStep(s, word[0], rest);
      SpellsExactly(s[1..], rest);
      if |s| >= 2 {
        SpellsExactly(s[2..], rest);
      }
      if |s| >= 3 {
        SpellsExactly(s[3..], rest);
      }
      assert word == [word[0]] + rest;
    } else {
      LowerNothing(s);
    }
  }

  lemma LowerNothing(s: string)
    ensures LowerWord(s) == "" <==> s == ""
  {
  }
}

/** encoding/hex, and the 16-byte keys and nonces that are kept as hex text. */
module Hex {
  import opened Basics
  import opened Text

  predicate IsHexChar(c: char) {
    '0' <= c <= '9' || 'a' <= c <= 'f' || 'A' <= c <= 'F'
  }

  function HexValue(c: char): (v: int)
    requires IsHexChar(c)
    ensures 0 <= v < 16
  {
    if c <= '9' then c as int - '0' as int
    else if c <= 'F' then c as int - 'A' as int + 10
    else c as int - 'a' as int + 10
  }

  function HexDigit(v: int): (c: char)
    requires 0 <= v < 16
    ensures IsHexChar(c) && HexValue(c) == v && LowerChar(c) == c
  {
    if v < 10 then (v + '0' as int) as char else (v - 10 + 'a' as int) as char
  }

  predicate IsHex(s: string) {
    |s| % 2 == 0 && forall i :: 0 <= i < |s| ==> IsHexChar(s[i])
  }

  function DecodeByte(s: string, i: nat): Byte
    requires IsHex(s) && 2 * i + 1 < |s|
  {
    HexValue(s[2 * i]) * 16 + HexValue(s[2 * i + 1])
  }

  function Decode(s: string): (r: Option<seq<Byte>>)
    ensures r.Some? <==> IsHex(s)
    ensures r.Some? ==> |r.value| * 2 == |s|
  {
    if IsHex(s) then Some(seq(|s| / 2, i requires 0 <= i < |s| / 2 => DecodeByte(s, i))) else None
  }

  function EncodeChar(b: seq<Byte>, i: nat): char
    requires i < 2 * |b|
  {
    HexDigit(if i % 2 == 0 then b[i / 2] / 16 else b[i / 2] % 16)
  }

  function Encode(b: seq<Byte>): (s: string)
    ensures |s| == 2 * |b| && IsHex(s)
  {
    seq(2 * |b|, i requires 0 <= i < 2 * |b| => EncodeChar(b, i))
  }

  lemma DecodeEncode(b: seq<Byte>)
    ensures Decode(Encode(b)) == Some(b)
    ensures ToLower(Encode(b)) == Encode(b)
  {
    var s := Encode(b);
    forall i | 0 <= i < |b|
      ensures DecodeByte(s, i) == b[i]
    {
      assert s[2 * i] == EncodeChar(b, 2 * i) == HexDigit(b[i] / 16);
      assert s[2 * i + 1] == EncodeChar(b, 2 * i + 1) == HexDigit(b[i] % 16);
    }
    assert Decode(s).value == b;
    forall i | 0 <= i < |s|
      ensures LowerChar(s[i]) == s[i]
    {
      assert s[i] == EncodeChar(b, i);
    }
  }

  /** Case-insensitive text comparison of two hex texts decides equality of the bytes they denote. */
  lemma EqualFoldIsSameBytes(a: string, b: string)
    requires IsHex(a) && IsHex(b)
    ensures EqualFold(a, b) <==> Decode(a) == Decode(b)
  {
    if EqualFold(a, b) {
      EqualFoldDecodes(a, b);
    }
    if Decode(a) == Decode(b) {
      SameBytesFold(a, b);
    }
  }

  lemma EqualFoldDecodes(a: string, b: string)
    requires IsHex(a) && IsHex(b) && EqualFold(a, b)
    ensures Decode(a) == Decode(b)
  {
    assert |ToLower(a)| == |a| && |ToLower(b)| == |b|;
    forall i | 0 <= i < |a|
      ensures HexValue(a[i]) == HexValue(b[i])
    {
      assert ToLower(a)[i] == LowerChar(a[i]);
      assert ToLower(b)[i] == LowerChar(b[i]);
    }
    assert Decode(a).value == Decode(b).value;
  }

  lemma SameBytesFold(a: string, b: string)
    requires IsHex(a) && IsHex(b) && Decode(a) == Decode(b)
    ensures EqualFold(a, b)
  {
    assert |a| == |b|;
    forall i | 0 <= i < |a|
      ensures LowerChar(a[i]) == LowerChar(b[i])
    {
      assert DecodeByte(a, i / 2) == Decode(a).value[i / 2] == Decode(b).value[i / 2] == DecodeByte(b, i / 2);
      SameDigits(a, b, i / 2);
      assert i == 2 * (i / 2) || i == 2 * (i / 2) + 1;
    }
    assert ToLower(a) == ToLower(b);
  }

  lemma SameDigits(a: string, b: string, i: nat)
    requires IsHex(a) && IsHex(b) && 2 * i + 1 < |a| && |a| == |b| && DecodeByte(a, i) == DecodeByte(b, i)
    ensures LowerChar(a[2 * i]) == LowerChar(b[2 * i]) && LowerChar(a[2 * i + 1]) == LowerChar(b[2 * i + 1])
  {
    assert HexValue(a[2 * i]) == HexValue(b[2 * i]) && HexValue(a[2 * i + 1]) == HexValue(b[2 * i + 1]);
  }

  type Nonce = n: seq<Byte> | |n| == 16 witness seq(16, i => 0)

  type Digest = d: seq<Byte> | |d| == 32 witness seq(32, i => 0)

  predicate IsNonceText(s: string) {
    |s| == 32 && IsHex(s)
  }

  function DecodeNonce(s: string): Nonce
    requires IsNonceText(s)
  {
    Decode(s).value
  }

  function DecodeNonces(texts: seq<string>): (nonces: seq<Nonce>)
    requires forall t :: t in texts ==> IsNonceText(t)
    ensures |nonces| == |texts|
    ensures forall i :: 0 <= i < |texts| ==> nonces[i] == DecodeNonce(texts[i])
  {
    seq(|texts|, i requires 0 <= i < |texts| => DecodeNonce(texts[i]))
  }

  function EncodeNonces(nonces: seq<Nonce>): (texts: seq<string>)
    ensures |texts| == |nonces|
    ensures forall i :: 0 <= i < |nonces| ==> texts[i] == Encode(nonces[i])
  {
    seq(|nonces|, i requires 0 <= i < |nonces| => Encode(nonces[i]))
  }

  lemma DecodeEncodeNonces(nonces: seq<Nonce>)
    ensures forall t :: t in EncodeNonces(nonces) ==> IsNonceText(t)
    ensures DecodeNonces(EncodeNonces(nonces)) == nonces
  {
    forall i | 0 <= i < |nonces|
      ensures Decode(EncodeNonces(nonces)[i]) == Some(nonces[i])
    {
      DecodeEncode(nonces[i]);
    }
  }

  /** No entry occurs twice. */
  ghost predicate Distinct<T>(s: seq<T>) {
    forall i, j :: 0 <= i < j < |s| ==> s[i] != s[j]
  }
}
