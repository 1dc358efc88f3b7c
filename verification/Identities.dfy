/** The emulated device's identity: when it is valid, how one is created, and when a stored one meets the operator's
    wishes. */
module Identities {
  import opened Basics
  import opened Text
  import opened Hex

  datatype Identity = Identity(mac: string, serial: string, guid: string)

  type Mac = m: seq<Byte> | |m| == 6 witness [0, 0, 0, 0, 0, 0]

  predicate HexPair(s: string, i: nat) {
    i + 1 < |s| && IsHexChar(s[i]) && IsHexChar(s[i + 1])
  }

  function PairValue(s: string, i: nat): Byte
    requires HexPair(s, i)
  {
    HexValue(s[i]) * 16 + HexValue(s[i + 1])
  }

  predicate HexPairs(s: string, at: seq<nat>) {
    forall k :: 0 <= k < |at| ==> HexPair(s, at[k])
  }

  function PairValues(s: string, at: seq<nat>): (b: seq<Byte>)
    requires HexPairs(s, at)
    ensures |b| == |at|
  {
    seq(|at|, k requires 0 <= k < |at| => PairValue(s, at[k]))
  }

  const COLONS: seq<nat> := [0, 3, 6, 9, 12, 15]
  const DOTS: seq<nat> := [0, 2, 5, 7, 10, 12]

  /** net.ParseMAC, for the forms that denote six bytes. */
  function ParseMac(s: string): Option<Mac> {
    if |s| == 17 && (s[2] == ':' || s[2] == '-') && s[5] == s[8] == s[11] == s[14] == s[2] && HexPairs(s, COLONS) then
      Some(PairValues(s, COLONS))
    else if |s| == 14 && s[4] == s[9] == '.' && HexPairs(s, DOTS) then Some(PairValues(s, DOTS))
    else None
  }

  predicate ValidMac(s: string) {
    ParseMac(s).Some? && ParseMac(s).value[0] % 2 == 0
  }

  function MacChar(m: Mac, i: nat): char
    requires i < 17
  {
    if i % 3 == 2 then ':' else HexDigit(if i % 3 == 0 then m[i / 3] / 16 else m[i / 3] % 16)
  }

  /** The canonical lower-case text of a MAC. */
  function MacText(m: Mac): (s: string)
    ensures |s| == 17
  {
    seq(17, i requires 0 <= i < 17 => MacChar(m, i))
  }

  lemma MacTextParses(m: Mac)
    ensures ParseMac(MacText(m)) == Some(m)
  {
    var s := MacText(m);
    forall k | 0 <= k < 6
      ensures HexPair(s, COLONS[k]) && PairValue(s, COLONS[k]) == m[k]
    {
      assert COLONS[k] == 3 * k;
      assert s[3 * k] == MacChar(m, 3 * k) && s[3 * k + 1] == MacChar(m, 3 * k + 1);
    }
    assert PairValues(s, COLONS) == m;
  }

  function NormalizeMac(s: string): string {
    if ParseMac(s).Some? then MacText(ParseMac(s).value) else s
  }

  predicate ValidUuid(s: string) {
    && |s| == 36 && s[8] == s[13] == s[18] == s[23] == '-'
    && forall i :: 0 <= i < 36 && i !in {8, 13, 18, 23} ==> IsHexChar(s[i])
  }

  predicate ValidIdentity(i: Identity) {
    ValidMac(i.mac) && ValidConfigValue(i.serial, 128) && ValidUuid(i.guid)
  }

  // ---- Creation ------------------------------------------------------------------------------------

  /** What the operator asked for, empty when nothing, and the random bytes drawn in its place. */
  datatype Request = Request(mac: string, serial: string, macBytes: Option<Mac>, guidBytes: Option<Nonce>)

  /** A locally administered unicast address. */
  function LocalMac(m: Mac): Mac {
    m[0 := m[0] - m[0] % 4 + 2]
  }

  function UpperChar(c: char): char {
    if 'a' <= c <= 'z' then (c as int - 32) as char else c
  }

  /** The serial made from a MAC: upper case, without colons. */
  function SerialOf(mac: string): string {
    if mac == "" then ""
    else (if mac[0] == ':' then "" else [UpperChar(mac[0])]) + SerialOf(mac[1..])
  }

  /** The text of a version 4 UUID. */
  function UuidText(b: Nonce): string {
    var e := Encode(b[6 := b[6] % 16 + 64][8 := b[8] % 64 + 128]);
    e[..8] + "-" + e[8..12] + "-" + e[12..16] + "-" + e[16..20] + "-" + e[20..]
  }

  function NewIdentity(r: Request): Option<Identity> {
    if (r.mac == "" && r.macBytes.None?) || r.guidBytes.None? then None
    else
      var mac := if r.mac == "" then MacText(LocalMac(r.macBytes.value)) else NormalizeMac(r.mac);
      Some(Identity(mac, if r.serial == "" then SerialOf(mac) else r.serial, UuidText(r.guidBytes.value)))
  }

  /** A stored identity meets the request. */
  predicate Meets(i: Identity, r: Request) {
    (r.mac != "" ==> EqualFold(NormalizeMac(r.mac), i.mac)) && (r.serial != "" ==> r.serial == i.serial)
  }

  lemma UuidIsValid(b: Nonce)
    ensures ValidUuid(UuidText(b))
  {
    var e := Encode(b[6 := b[6] % 16 + 64][8 := b[8] % 64 + 128]);
    var s := UuidText(b);
    forall i | 0 <= i < 36 && i !in {8, 13, 18, 23}
      ensures IsHexChar(s[i])
    {
      var k := if i < 8 then i else if i < 13 then i - 1 else if i < 18 then i - 2 else if i < 23 then i - 3 else i - 4;
      assert s[i] == e[k];
    }
  }

  lemma {:induction false} SerialIsText(mac: string)
    requires forall i :: 0 <= i < |mac| ==> IsHexChar(mac[i]) || mac[i] == ':'
    ensures |SerialOf(mac)| <= |mac| && (mac != "" && mac[0] != ':' ==> SerialOf(mac) != "")
    ensures forall i :: 0 <= i < |SerialOf(mac)| ==> SerialOf(mac)[i] >= ' ' && SerialOf(mac)[i] as int != 0x7f
  {
    if mac != "" {
      SerialIsText(mac[1..]);
    }
  }

  lemma MacTextSerial(m: Mac)
    ensures ValidConfigValue(SerialOf(MacText(m)), 128)
  {
    var s := MacText(m);
    forall i | 0 <= i < 17
      ensures IsHexChar(s[i]) || s[i] == ':'
    {
      assert s[i] == MacChar(m, i);
    }
    assert s[0] == MacChar(m, 0);
    SerialIsText(s);
  }

  /** A created identity is valid exactly when what the operator asked for is, and it meets the request, so that the next
      start with the same wishes does not refuse it. */
  lemma NewIdentityIsValid(r: Request)
    requires NewIdentity(r).Some?
    ensures ValidIdentity(NewIdentity(r).value) <==>
            (r.mac == "" || ValidMac(r.mac)) && (r.serial == "" || ValidConfigValue(r.serial, 128))
    ensures Meets(NewIdentity(r).value, r)
  {
    hide ParseMac, SerialOf, UuidText, ValidUuid, MacText, ValidConfigValue;
    UuidIsValid(r.guidBytes.value);
    var m := if r.mac == "" then Some(LocalMac(r.macBytes.value)) else ParseMac(r.mac);
    if m.Some? {
      MacTextParses(m.value);
      MacTextSerial(m.value);
    }
  }

  // ---- What was drawn is what is written ---------------------------------------------------------------

  /** The two characters are the capital hexadecimal digits of a byte. */
  predicate CapitalPair(a: char, b: char, v: Byte) {
    && IsHexChar(a) && IsHexChar(b) && HexValue(a) * 16 + HexValue(b) == v
    && !('a' <= a <= 'z') && !('a' <= b <= 'z')
  }

  lemma {:induction false} SerialFrom(m: Mac, k: nat)
    requires k < 6
    ensures var t := SerialOf(MacText(m)[3 * k..]);
      |t| == 12 - 2 * k && forall i :: k <= i < 6 ==> CapitalPair(t[2 * (i - k)], t[2 * (i - k) + 1], m[i])
    decreases 6 - k
  {
    hide MacText, CapitalPair;
    var s := MacText(m);
    PairIsCapital(m[k]);
    var a, b := UpperChar(HexDigit(m[k] / 16)), UpperChar(HexDigit(m[k] % 16));
    MacTextAt(m, k);
    var t := s[3 * k..];
    if k == 5 {
      assert t[1..][1..] == [];
      assert SerialOf(t) == [a] + ([b] + SerialOf(t[1..][1..]));
    } else {
      SerialFrom(m, k + 1);
      assert t[1..][1..][1..] == s[3 * (k + 1)..];
      assert SerialOf(t) == [a] + ([b] + SerialOf(t[1..][1..]));
      var rest := SerialOf(s[3 * (k + 1)..]);
      assert SerialOf(t) == [a, b] + rest;
      forall i | k < i < 6
        ensures CapitalPair(SerialOf(t)[2 * (i - k)], SerialOf(t)[2 * (i - k) + 1], m[i])
      {
        assert SerialOf(t)[2 * (i - k)] == rest[2 * (i - k - 1)] && SerialOf(t)[2 * (i - k) + 1] == rest[2 * (i - k - 1) + 1];
      }
    }
  }

  lemma PairIsCapital(v: Byte)
    ensures CapitalPair(UpperChar(HexDigit(v / 16)), UpperChar(HexDigit(v % 16)), v)
    ensures HexDigit(v / 16) != ':' && HexDigit(v % 16) != ':'
  {
  }

  lemma MacTextAt(m: Mac, k: nat)
    requires k < 6
    ensures var s := MacText(m);
      s[3 * k] == HexDigit(m[k] / 16) && s[3 * k + 1] == HexDigit(m[k] % 16) && (k < 5 ==> s[3 * k + 2] == ':')
  {
    var s := MacText(m);
    assert s[3 * k] == MacChar(m, 3 * k) && s[3 * k + 1] == MacChar(m, 3 * k + 1);
    if k < 5 {
      assert s[3 * k + 2] == MacChar(m, 3 * k + 2);
    }
  }

  /** Where the k-th hexadecimal digit of a UUID stands. */
  function UuidPlace(k: nat): nat {
    if k < 8 then k else if k < 12 then k + 1 else if k < 16 then k + 2 else if k < 20 then k + 3 else k + 4
  }

  /** An identity for which nothing was asked: a locally administered unicast address of the drawn bytes, its twelve
      capital digits as serial, and a version 4 UUID of the drawn bytes. */
  lemma DrawnIdentity(r: Request)
    requires NewIdentity(r).Some? && r.mac == "" && r.serial == ""
    ensures var i, drawn, bytes := NewIdentity(r).value, r.macBytes.value, r.guidBytes.value;
      && ParseMac(i.mac).Some?
      && (var m := ParseMac(i.mac).value;
            && m[0] % 4 == 2 && m[0] / 4 == drawn[0] / 4 && m[1..] == drawn[1..]
            && |i.serial| == 12 && forall k :: 0 <= k < 6 ==> CapitalPair(i.serial[2 * k], i.serial[2 * k + 1], m[k]))
      && ValidUuid(i.guid) && i.guid[14] == '4' && i.guid[19] in {'8', '9', 'a', 'b'}
      && forall k :: 0 <= k < 32 && k != 12 && k != 16 ==> i.guid[UuidPlace(k)] == Encode(bytes)[k]
  {
    hide ParseMac, MacText, SerialOf, CapitalPair, UuidText, ValidUuid;
    var m := LocalMac(r.macBytes.value);
    MacTextParses(m);
    SerialFrom(m, 0);
    assert MacText(m)[0..] == MacText(m);
    UuidIsValid(r.guidBytes.value);
    UuidDigits(r.guidBytes.value);
    assert NewIdentity(r).value == Identity(MacText(m), SerialOf(MacText(m)), UuidText(r.guidBytes.value));
  }

  lemma UuidPlaces(e: string, s: string)
    requires |e| == 32 && s == e[..8] + "-" + e[8..12] + "-" + e[12..16] + "-" + e[16..20] + "-" + e[20..]
    ensures |s| == 36 && forall k :: 0 <= k < 32 ==> s[UuidPlace(k)] == e[k]
  {
  }

  lemma OtherDigits(b: Nonce, c: seq<Byte>, k: nat)
    requires |c| == 16 && (forall i :: 0 <= i < 16 && i != 6 && i != 8 ==> c[i] == b[i])
    requires c[6] % 16 == b[6] % 16 && c[8] % 16 == b[8] % 16
    requires k < 32 && k != 12 && k != 16
    ensures Encode(c)[k] == Encode(b)[k]
  {
    hide HexDigit;
    assert Encode(c)[k] == EncodeChar(c, k) && Encode(b)[k] == EncodeChar(b, k);
    assert k / 2 == 6 ==> k == 13;
    assert k / 2 == 8 ==> k == 17;
  }

  lemma UuidDigits(b: Nonce)
    ensures var s := UuidText(b);
      && |s| == 36 && s[14] == '4' && s[19] in {'8', '9', 'a', 'b'}
      && forall k :: 0 <= k < 32 && k != 12 && k != 16 ==> s[UuidPlace(k)] == Encode(b)[k]
  {
    hide Encode;
    var c: seq<Byte> := b[6 := b[6] % 16 + 64][8 := b[8] % 64 + 128];
    var e, s := Encode(c), UuidText(b);
    UuidPlaces(e, s);
    VersionDigits(c);
    assert s[UuidPlace(12)] == e[12] && s[UuidPlace(16)] == e[16];
    forall k | 0 <= k < 32 && k != 12 && k != 16
      ensures s[UuidPlace(k)] == Encode(b)[k]
    {
      OtherDigits(b, c, k);
    }
  }

  lemma VersionDigits(c: seq<Byte>)
    requires |c| == 16 && 64 <= c[6] < 80 && 128 <= c[8] < 192
    ensures Encode(c)[12] == '4' && Encode(c)[16] in {'8', '9', 'a', 'b'}
  {
    assert Encode(c)[12] == EncodeChar(c, 12) && Encode(c)[16] == EncodeChar(c, 16);
  }
}
