/** The inform envelope byte by byte: which calls produce a packet and exactly what is in it, and which packets are
    accepted. */
module CodecWire {
  import opened Basics
  import opened Codec

  // ---- Pieces -------------------------------------------------------------------------------------------

  function Number4(a: int, b: int, c: int, d: int): int {
    a * 0x100_0000 + b * 0x1_0000 + c * 256 + d
  }

  /** Four bytes spell a number, most significant first. */
  predicate Spells4(b: seq<Byte>, v: int) {
    |b| == 4 && Number4(b[0], b[1], b[2], b[3]) == v
  }

  predicate Spells8(b: seq<Byte>, v: int) {
    |b| == 8 && Number4(b[0], b[1], b[2], b[3]) * 0x1_0000_0000 + Number4(b[4], b[5], b[6], b[7]) == v
  }

  lemma U32Spells(b: seq<Byte>, v: int)
    requires 0 <= v < 0x1_0000_0000 && |b| == 4
    ensures Spells4(b, v) <==> b == U32(v)
    ensures U32At(b) == v <==> Spells4(b, v)
  {
    U32RoundTrip(v);
    U32Inverse(b);
  }

  lemma U64Spells(v: int)
    requires 0 <= v < U64_WRAP
    ensures Spells8(U64(v), v)
  {
    hide U32, Number4;
    var b, high, low := U64(v), v / 0x1_0000_0000, v % 0x1_0000_0000;
    U32Spells(b[..4], high);
    U32Spells(b[4..], low);
    assert b[..4] == U32(high) && b[4..] == U32(low);
    assert b[..4][0] == b[0] && b[..4][1] == b[1] && b[..4][2] == b[2] && b[..4][3] == b[3];
    assert b[4..][0] == b[4] && b[4..][1] == b[5] && b[4..][2] == b[6] && b[4..][3] == b[7];
  }

  predicate HexDigitIs(c: char, v: int) {
    || ('0' <= c <= '9' && v == c as int - 48)
    || ('a' <= c <= 'f' && v == c as int - 87)
    || ('A' <= c <= 'F' && v == c as int - 55)
  }

  predicate HexDigit(c: char) {
    '0' <= c <= '9' || 'a' <= c <= 'f' || 'A' <= c <= 'F'
  }

  predicate HexByteIs(a: char, b: char, v: int) {
    HexDigit(a) && HexDigit(b) && HexDigitIs(a, v / 16) && HexDigitIs(b, v % 16)
  }

  /** The text spells the sixteen bytes of a key, two digits each. */
  predicate KeyIs(text: string, key: seq<Byte>) {
    |text| == 32 && |key| == 16 && forall i :: 0 <= i < 16 ==> HexByteIs(text[2 * i], text[2 * i + 1], key[i])
  }

  lemma KeyExactly(text: string, key: Block)
    ensures ParseKey(text) == Some(key) <==> KeyIs(text, key)
  {
    hide HexByteIs;
    if |text| == 32 && H.IsHex(text) {
      var bytes := H.Decode(text).value;
      forall i | 0 <= i < 16
        ensures HexByteIs(text[2 * i], text[2 * i + 1], key[i]) <==> bytes[i] == key[i]
      {
        assert bytes[i] == H.DecodeByte(text, i);
        ByteIs(text[2 * i], text[2 * i + 1], key[i]);
      }
      assert bytes == key <==> forall i :: 0 <= i < 16 ==> bytes[i] == key[i];
    }
    if KeyIs(text, key) {
      forall i | 0 <= i < 32
        ensures H.IsHexChar(text[i])
      {
        assert HexByteIs(text[2 * (i / 2)], text[2 * (i / 2) + 1], key[i / 2]);
        DigitsOf(text[2 * (i / 2)], text[2 * (i / 2) + 1], key[i / 2]);
        assert i == 2 * (i / 2) || i == 2 * (i / 2) + 1;
      }
    }
  }

  lemma DigitsOf(a: char, b: char, v: int)
    requires HexByteIs(a, b, v)
    ensures H.IsHexChar(a) && H.IsHexChar(b)
  {
  }

  lemma ByteIs(a: char, b: char, v: Byte)
    requires H.IsHexChar(a) && H.IsHexChar(b)
    ensures HexByteIs(a, b, v) <==> H.HexValue(a) * 16 + H.HexValue(b) == v
  {
  }

  /** A unicast address that is not all zeros. */
  predicate Unicast(mac: Mac) {
    mac[0] % 2 == 0 && !(mac[0] == mac[1] == mac[2] == mac[3] == mac[4] == mac[5] == 0)
  }

  lemma UnicastExactly(mac: Mac)
    ensures ValidMac(mac) <==> Unicast(mac)
  {
  }

  // ---- What is sent -------------------------------------------------------------------------------------

  /** The 40 bytes in front of a body: TNBU, version 0, the sender, the mode, the vector or nonce, payload version 1, and the
      length of the body. */
  predicate HeaderIs(h: seq<Byte>, mac: Mac, gcm: bool, iv: Block, size: int) {
    && |h| == 40 && h[0] == 0x54 && h[1] == 0x4E && h[2] == 0x42 && h[3] == 0x55
    && h[4] == h[5] == h[6] == h[7] == 0 && h[8..14] == mac && h[14] == 0 && h[15] == (if gcm then 9 else 1)
    && h[16..32] == iv && h[32] == h[33] == h[34] == 0 && h[35] == 1 && Spells4(h[36..40], size)
  }

  lemma HeaderExactly(h: seq<Byte>, mac: Mac, gcm: bool, iv: Block, size: nat)
    requires size < 0x1_0000_0000
    ensures HeaderIs(h, mac, gcm, iv, size) <==> h == Header(mac, if gcm then FLAG_GCM else FLAG_CBC, iv, size)
  {
    hide U32, Spells4;
    Constants();
    if |h| == 40 {
      U32Spells(h[36..40], size);
    }
    var w := Header(mac, if gcm then FLAG_GCM else FLAG_CBC, iv, size);
    assert w[8..14] == mac && w[16..32] == iv && w[36..40] == U32(size);
    assert w[..4] == MAGIC && w[4..8] == [0, 0, 0, 0] && w[32..36] == [0, 0, 0, 1];
    if HeaderIs(h, mac, gcm, iv, size) {
      assert h == h[..4] + h[4..8] + h[8..14] + h[14..16] + h[16..32] + h[32..36] + h[36..40];
      assert w == w[..4] + w[4..8] + w[8..14] + w[14..16] + w[16..32] + w[32..36] + w[36..40];
      assert h[..4] == w[..4] && h[4..8] == w[4..8] && h[14..16] == w[14..16] && h[32..36] == w[32..36];
    }
  }

  lemma Constants()
    ensures U32(PACKET_VERSION) == [0, 0, 0, 0] && U32(PAYLOAD_VERSION) == [0, 0, 0, 1]
    ensures U16(FLAG_CBC) == [0, 1] && U16(FLAG_GCM) == [0, 9]
  {
  }

  /** Between one and sixteen bytes are added, all equal to their number, to fill the last block. */
  predicate IsPadded(padded: seq<Byte>, plain: seq<Byte>) {
    && |padded| % 16 == 0 && |plain| < |padded| <= |plain| + 16 && padded[..|plain|] == plain
    && forall i :: |plain| <= i < |padded| ==> padded[i] == |padded| - |plain|
  }

  lemma PadExactly(padded: seq<Byte>, plain: seq<Byte>)
    ensures padded == Pad(plain) <==> IsPadded(padded, plain)
  {
    if IsPadded(padded, plain) {
      PadIsDetermined(|plain|, |padded| - |plain|);
      assert padded == padded[..|plain|] + padded[|plain|..];
      assert padded[|plain|..] == seq(PadSize(|plain|), _ => PadSize(|plain|));
    }
  }

  /** The size of the body: whole blocks, or the text and a tag. */
  function SentSize(payload: seq<Byte>, gcm: bool): nat {
    if gcm then |payload| + 16 else (|payload| / 16 + 1) * 16
  }

  /** A packet: the header, and the body under the key. The vector of a CBC packet is the one drawn for it; a GCM nonce is
      the prefix followed by the counter, and the header is authenticated with the text. */
  ghost predicate Sent(c: Cipher, s: Sequence, mac: Mac, payload: seq<Byte>, key: Block, gcm: bool,
                       drawn: Option<Block>,
                       data: seq<Byte>) {
    && |data| >= 40 && HeaderIs(data[..40], mac, gcm, data[16..32], SentSize(payload, gcm))
    && var iv := data[16..32];
       if gcm then iv[..8] == s.prefix && Spells8(iv[8..], s.next) && data[40..] == c.seal(key, iv, payload, data[..40])
       else drawn == Some(iv) && exists padded :: IsPadded(padded, payload) && data[40..] == c.encrypt(key, iv, padded)
  }

  lemma EncodeExactly(c: Cipher, limits: Limits, s: Sequence, mac: Mac, payload: seq<Byte>, keyText: string, mode: Mode,
                      drawn: Option<Block>, key: Block)
    requires 0 <= s.next < U64_WRAP && limits.maxWireBody < 0x1_0000_0000 && KeyIs(keyText, key)
    ensures var (s', out) := Encode(c, limits, s, mac, payload, keyText, mode, drawn);
      && (out.Some? <==>
            && Unicast(mac) && 1 <= |payload| <= limits.maxPlaintext && SentSize(payload, mode == GCM) <= limits.maxWireBody
            && (if mode == GCM then s.next != 0 else drawn.Some?))
      && (out.Some? ==>
            && Sent(c, s, mac, payload, key, mode == GCM, drawn, out.value)
            && s' == if mode == GCM then s.(next := (s.next + 1) % 0x1_0000_0000_0000_0000) else s)
  {
    hide KeyIs, ParseKey, ValidMac, Unicast, Header, HeaderIs, Pad, IsPadded, U64, Spells8;
    var gcm := mode == GCM;
    KeyExactly(keyText, key);
    UnicastExactly(mac);
    PadExactly(Pad(payload), payload);
    SizesAgree(payload, gcm);
    U64Spells(s.next);
    var (s', out) := Encode(c, limits, s, mac, payload, keyText, mode, drawn);
    if out.Some? {
      var iv: Block := if gcm then s.prefix + U64(s.next) else drawn.value;
      var header := Header(mac, if gcm then FLAG_GCM else FLAG_CBC, iv, SentSize(payload, gcm));
      HeaderExactly(header, mac, gcm, iv, SentSize(payload, gcm));
      HeaderIv(mac, if gcm then FLAG_GCM else FLAG_CBC, iv, SentSize(payload, gcm));
      var data := out.value;
      assert data[..40] == header && data[16..32] == header[16..32] == iv;
      assert gcm ==> iv[..8] == s.prefix && iv[8..] == U64(s.next);
    }
  }

  lemma SizesAgree(payload: seq<Byte>, gcm: bool)
    ensures SentSize(payload, gcm) == if gcm then |payload| + TAG else PaddedLength(|payload|)
  {
  }

  /** Without a key of 32 hexadecimal digits nothing is sent or accepted. */
  lemma NoKeyNothing(c: Cipher, limits: Limits, s: Sequence, mac: Mac, payload: seq<Byte>, keyText: string, mode: Mode,
                     drawn: Option<Block>, d: Decoder, data: seq<Byte>)
    requires 0 <= s.next < U64_WRAP && !(|keyText| == 32 && forall i :: 0 <= i < 32 ==> HexDigit(keyText[i]))
    ensures Encode(c, limits, s, mac, payload, keyText, mode, drawn).1.None? && Decode(c, d, data, keyText).None?
  {
    hide ValidMac, Header, Pad;
    if |keyText| == 32 {
      var i :| 0 <= i < 32 && !HexDigit(keyText[i]);
      assert !H.IsHexChar(keyText[i]);
    }
  }

  // ---- What is accepted ---------------------------------------------------------------------------------

  /** The limits of a decoder: 1 MiB on the wire and 4 MiB of text unless it has its own. */
  function LimitsOf(d: Decoder): Limits {
    if d.limits.maxWireBody == 0 && d.limits.maxPlaintext == 0 then Limits(1048576, 4194304) else d.limits
  }

  ghost predicate Received(c: Cipher, d: Decoder, data: seq<Byte>, key: Block, p: Packet) {
    var limits, gcm := LimitsOf(d), p.nonce.Some?;
    && limits.maxWireBody >= 16 && limits.maxPlaintext >= 1
    && 40 < |data| <= 40 + limits.maxWireBody && |data| - 40 < 0x1_0000_0000
    && HeaderIs(data[..40], p.mac, gcm, data[16..32], |data| - 40) && Unicast(p.mac)
    && (d.expectedMac.Some? ==> d.expectedMac.value == p.mac)
    && (d.expectedMode.Some? ==> d.expectedMode.value == if gcm then GCM else CBC)
    && (gcm ==> p.nonce.value == data[16..32]) && 1 <= |p.payload| <= limits.maxPlaintext
    && if gcm then |data| >= 56 && c.open(key, data[16..32], data[40..], data[..40]) == Some(p.payload)
       else (|data| - 40) % 16 == 0 && IsPadded(c.decrypt(key, data[16..32], data[40..]), p.payload)
  }

  lemma StripExactly(blocks: seq<Byte>, plain: seq<Byte>)
    ensures Strip(blocks) == Some(plain) <==> IsPadded(blocks, plain)
  {
    StripInvertsPad(plain, blocks);
    PadExactly(blocks, plain);
  }

  lemma FitsExactly(d: Decoder, data: seq<Byte>, mac: Mac, gcm: bool)
    requires |data| >= 40
    ensures (HeaderFits(d, data) && data[8..14] == mac && ModeOf(U16At(data[14..16])) == Some(if gcm then GCM else CBC)) <==>
      && 40 < |data| <= 40 + LimitsOf(d).maxWireBody && |data| - 40 < 0x1_0000_0000
      && HeaderIs(data[..40], mac, gcm, data[16..32], |data| - 40) && Unicast(mac)
      && (d.expectedMac.Some? ==> d.expectedMac.value == mac)
      && (d.expectedMode.Some? ==> d.expectedMode.value == if gcm then GCM else CBC)
  {
    hide ValidMac, Unicast, Spells4, U32At, U16At;
    UnicastExactly(mac);
    var h := data[..40];
    assert h[8..14] == data[8..14] && h[16..32] == data[16..32] && h[36..40] == data[36..40];
    FlagsAre(data[14..16]);
    WordIs(data[4..8], 0);
    WordIs(data[32..36], 1);
    MagicIs(data[..4]);
    if 40 < |data| && |data| - 40 < 0x1_0000_0000 {
      U32Spells(data[36..40], |data| - 40);
    }
  }

  lemma MagicIs(b: seq<Byte>)
    requires |b| == 4
    ensures b == MAGIC <==> b[0] == 0x54 && b[1] == 0x4E && b[2] == 0x42 && b[3] == 0x55
  {
  }

  lemma FlagsAre(b: seq<Byte>)
    requires |b| == 2
    ensures U16At(b) == FLAG_CBC <==> b[0] == 0 && b[1] == 1
    ensures U16At(b) == FLAG_GCM <==> b[0] == 0 && b[1] == 9
  {
  }

  lemma WordIs(b: seq<Byte>, v: Byte)
    requires |b| == 4
    ensures U32At(b) == v <==> b[0] == b[1] == b[2] == 0 && b[3] == v
  {
  }

  /** A packet is accepted, and read as this, exactly when it is such a packet under this key. */
  lemma DecodeExactly(c: Cipher, d: Decoder, data: seq<Byte>, keyText: string, key: Block, p: Packet)
    requires KeyIs(keyText, key)
    ensures Decode(c, d, data, keyText) == Some(p) <==> Received(c, d, data, key, p)
  {
    hide KeyIs, ParseKey, HeaderFits, HeaderIs, Unicast, IsPadded, Strip, U16At;
    KeyExactly(keyText, key);
    if |data| >= 40 {
      FitsExactly(d, data, p.mac, p.nonce.Some?);
      StripExactly(c.decrypt(key, data[16..32], data[40..]), p.payload);
    }
    HeaderIsLong(d, data);
  }

  lemma HeaderIsLong(d: Decoder, data: seq<Byte>)
    ensures HeaderFits(d, data) ==> |data| > 40 && ModeOf(U16At(data[14..16])).Some?
  {
  }
}
