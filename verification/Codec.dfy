/** The TNBU inform envelope: header, padding, nonce sequence, and the decoder that inverts the encoder. */
module Codec {
  import opened Basics
  import H = Hex

  const BLOCK := 16
  const TAG := 16
  const HEADER := 40
  const PACKET_VERSION := 0
  const PAYLOAD_VERSION := 1
  const FLAG_CBC := 1
  const FLAG_GCM := 9

  const MAGIC: seq<Byte> := [0x54, 0x4E, 0x42, 0x55]

  type Mac = m: seq<Byte> | |m| == 6 witness [0, 0, 0, 0, 0, 0]
  type Block = b: seq<Byte> | |b| == 16 witness [0, 0, 0, 0, 0, 0, 0, 0, 0, 0, 0, 0, 0, 0, 0, 0]
  type Prefix = p: seq<Byte> | |p| == 8 witness [0, 0, 0, 0, 0, 0, 0, 0]

  datatype Mode = CBC | GCM

  datatype Limits = Limits(maxWireBody: int, maxPlaintext: int) {
    predicate Valid() {
      maxWireBody >= BLOCK && maxPlaintext >= 1
    }
  }

  const DEFAULT_LIMITS := Limits(0x10_0000, 0x40_0000)

  /** AES in the two modes, as functions of key, nonce or vector, input and additional data. */
  datatype Cipher = Cipher(seal: (Block, Block, seq<Byte>, seq<Byte>) -> seq<Byte>,
                           open: (Block, Block, seq<Byte>, seq<Byte>) -> Option<seq<Byte>>,
                           encrypt: (Block, Block, seq<Byte>) -> seq<Byte>,
                           decrypt: (Block, Block, seq<Byte>) -> seq<Byte>)

  /** All that is assumed of the cipher: opening inverts sealing, decrypting whole blocks inverts encrypting them,
      and the lengths are those of the standard. */
  ghost predicate Lawful(c: Cipher) {
    && (forall k: Block, n: Block, p: seq<Byte>, d: seq<Byte> ::
          |c.seal(k, n, p, d)| == |p| + TAG && c.open(k, n, c.seal(k, n, p, d), d) == Some(p))
    && (forall k: Block, n: Block, p: seq<Byte> ::
          |p| % BLOCK == 0 ==> |c.encrypt(k, n, p)| == |p| && c.decrypt(k, n, c.encrypt(k, n, p)) == p)
  }

  // ---- Padding (section 6.3 of RFC 5652) ------------------------------------------------------------

  function PaddedLength(n: nat): nat {
    n + BLOCK - n % BLOCK
  }

  function PadSize(n: nat): (pad: int)
    ensures 1 <= pad <= BLOCK && (n + pad) % BLOCK == 0
  {
    BLOCK - n % BLOCK
  }

  function Pad(plain: seq<Byte>): (padded: seq<Byte>)
    ensures |padded| == PaddedLength(|plain|) && |padded| % BLOCK == 0 && |padded| > 0
  {
    plain + seq(PadSize(|plain|), _ => PadSize(|plain|))
  }

  method PadBlocks(plain: seq<Byte>) returns (padded: seq<Byte>)
    ensures padded == Pad(plain)
  {
    var pad := BLOCK - |plain| % BLOCK;
    var out := new Byte[|plain| + pad](i requires 0 <= i => if i < |plain| then plain[i] else 0);
    for i := |plain| to out.Length
      invariant forall j :: 0 <= j < |plain| ==> out[j] == plain[j]
      invariant forall j :: |plain| <= j < i ==> out[j] == pad
    {
      out[i] := pad;
    }
    return out[..];
  }

  /** The plain rule: the last byte says how many trailing bytes, all equal to it, are padding. */
  predicate Padded(blocks: seq<Byte>) {
    && |blocks| > 0 && |blocks| % BLOCK == 0
    && var pad := blocks[|blocks| - 1];
       1 <= pad <= BLOCK && forall i :: |blocks| - pad <= i < |blocks| ==> blocks[i] == pad
  }

  function Strip(blocks: seq<Byte>): (r: Option<seq<Byte>>)
    ensures r.Some? <==> Padded(blocks)
  {
    if Padded(blocks) then Some(blocks[..|blocks| - blocks[|blocks| - 1]]) else None
  }

  type Bit = b: int | 0 <= b <= 1

  function LessOrEq(x: int, y: int): Bit {
    if x <= y then 1 else 0
  }

  function Same(x: int, y: int): Bit {
    if x == y then 1 else 0
  }

  function And(x: Bit, y: Bit): Bit {
    if x == 1 then y else 0
  }

  function Or(x: Bit, y: Bit): Bit {
    if x == 1 then 1 else y
  }

  /** Looks at all sixteen bytes of the last block and branches once, at the end; it decides the plain rule. */
  method StripPadding(blocks: seq<Byte>) returns (r: Option<seq<Byte>>)
    ensures r == Strip(blocks)
  {
    if |blocks| == 0 || |blocks| % BLOCK != 0 {
      return None;
    }
    var pad := blocks[|blocks| - 1];
    var valid := And(LessOrEq(1, pad), LessOrEq(pad, BLOCK));
    var mismatch: Bit := 0;
    for i := 0 to BLOCK
      invariant mismatch == 0 <==> forall k :: |blocks| - i <= k < |blocks| && |blocks| - pad <= k ==> blocks[k] == pad
    {
      var insidePad := LessOrEq(i + 1, pad);
      var equal := Same(blocks[|blocks| - 1 - i], pad);
      mismatch := Or(mismatch, And(insidePad, 1 - equal));
    }
    valid := And(valid, Same(mismatch, 0));
    if valid != 1 {
      return None;
    }
    return Some(blocks[..|blocks| - pad]);
  }

  /** Stripping inverts padding, and only padded strings can be stripped. */
  lemma StripInvertsPad(plain: seq<Byte>, blocks: seq<Byte>)
    ensures Strip(Pad(plain)) == Some(plain)
    ensures Strip(blocks) == Some(plain) <==> blocks == Pad(plain)
  {
    var padded := Pad(plain);
    assert padded[|padded| - 1] == PadSize(|plain|);
    assert padded[..|plain|] == plain;
    if Strip(blocks) == Some(plain) {
      var pad := blocks[|blocks| - 1];
      PadIsDetermined(|plain|, pad);
      assert blocks[..|plain|] == plain;
      assert blocks == Pad(plain);
    }
  }

  lemma PadIsDetermined(n: nat, pad: int)
    requires 1 <= pad <= BLOCK && (n + pad) % BLOCK == 0
    ensures pad == PadSize(n)
  {
  }

  // ---- The header ----------------------------------------------------------------------------------

  predicate ValidMac(mac: Mac) {
    mac[0] % 2 == 0 && exists i :: 0 <= i < 6 && mac[i] != 0
  }

  function Header(mac: Mac, flags: int, iv: Block, size: nat): (h: seq<Byte>)
    requires 0 <= flags < 0x1_0000
    ensures |h| == HEADER
  {
    MAGIC + U32(PACKET_VERSION) + mac + U16(flags) + iv + U32(PAYLOAD_VERSION) + U32(size % 0x1_0000_0000)
  }

  method MarshalHeader(mac: Mac, flags: int, iv: Block, size: nat) returns (h: seq<Byte>)
    requires 0 <= flags < 0x1_0000
    ensures h == Header(mac, flags, iv, size)
  {
    hide U16, U32;
    var header := new Byte[HEADER](_ => 0);
    CopyInto(header, 0, MAGIC);
    CopyInto(header, 4, U32(PACKET_VERSION));
    CopyInto(header, 8, mac);
    CopyInto(header, 14, U16(flags));
    assert header[..16] == MAGIC + U32(PACKET_VERSION) + mac + U16(flags);
    ghost var front := header[..16];
    CopyInto(header, 16, iv);
    CopyInto(header, 32, U32(PAYLOAD_VERSION));
    CopyInto(header, 36, U32(size % 0x1_0000_0000));
    assert header[..16] == front;
    assert header[16..] == iv + U32(PAYLOAD_VERSION) + U32(size % 0x1_0000_0000);
    assert header[..] == header[..16] + header[16..];
    return header[..];
  }

  // ---- Keys ----------------------------------------------------------------------------------------

  function ParseKey(text: string): Option<Block> {
    if |text| == 32 && H.IsHex(text) then Some(H.Decode(text).value) else None
  }

  // ---- The encoder ---------------------------------------------------------------------------------

  datatype Packet = Packet(mac: Mac, payload: seq<Byte>, nonce: Option<Block>)

  datatype Sequence = Sequence(prefix: Prefix, next: int)

  function U64(v: int): (b: seq<Byte>)
    requires 0 <= v < U64_WRAP
    ensures |b| == 8
  {
    U32(v / 0x1_0000_0000) + U32(v % 0x1_0000_0000)
  }

  /** The next nonce - a random prefix and a counter - unless the counter has run out. */
  function NextNonce(s: Sequence): (Sequence, Option<Block>)
    requires 0 <= s.next < U64_WRAP
  {
    if s.next == 0 then (s, None)
    else (s.(next := (s.next + 1) % U64_WRAP), Some(s.prefix + U64(s.next)))
  }

  /** One call: the sequence afterwards, and the packet or nothing. The vector of a CBC packet is drawn outside. */
  function Encode(c: Cipher, limits: Limits, s: Sequence, mac: Mac, payload: seq<Byte>, keyText: string, mode: Mode,
                  drawn: Option<Block>)
    : (r: (Sequence, Option<seq<Byte>>))
    requires 0 <= s.next < U64_WRAP
  {
    if !ValidMac(mac) || payload == [] || |payload| > limits.maxPlaintext || ParseKey(keyText).None? then (s, None)
    else
      var key := ParseKey(keyText).value;
      var (s', iv) := if mode == CBC then (s, drawn) else NextNonce(s);
      var size := if mode == CBC then PaddedLength(|payload|) else |payload| + TAG;
      if iv.None? || size > limits.maxWireBody then (s', None)
      else
        var header := Header(mac, if mode == CBC then FLAG_CBC else FLAG_GCM, iv.value, size);
        var body := if mode == CBC then c.encrypt(key, iv.value, Pad(payload)) else c.seal(key, iv.value, payload, header);
        (s', Some(header + body))
  }

  class Encoder {
    const limits: Limits
    const gcmPrefix: Prefix
    var gcmNext: int

    ghost predicate Valid()
      reads this
    {
      0 <= gcmNext < U64_WRAP
    }

    ghost function View(): Sequence
      reads this
    {
      Sequence(gcmPrefix, gcmNext)
    }

    constructor (limits: Limits, prefix: Prefix)
      requires limits.Valid()
      ensures Valid() && this.limits == limits && View() == Sequence(prefix, 1)
    {
      this.limits, gcmPrefix, gcmNext := limits, prefix, 1;
    }

    method NextGcmNonce() returns (nonce: Option<Block>)
      requires Valid()
      modifies this
      ensures Valid() && (View(), nonce) == NextNonce(old(View()))
    {
      if gcmNext == 0 {
        return None;
      }
      nonce := Some(gcmPrefix + U64(gcmNext));
      gcmNext := (gcmNext + 1) % U64_WRAP;
    }

    method EncodePacket(c: Cipher, mac: Mac, payload: seq<Byte>, keyText: string, mode: Mode, drawn: Option<Block>)
      returns (data: Option<seq<Byte>>)
      requires Valid()
      modifies this
      ensures Valid() && (View(), data) == Encode(c, limits, old(View()), mac, payload, keyText, mode, drawn)
    {
      hide ParseKey, ValidMac, Header, Pad, PaddedLength, U64;
      if !ValidMac(mac) || |payload| == 0 || |payload| > limits.maxPlaintext {
        return None;
      }
      var key := ParseKey(keyText);
      if key.None? {
        return None;
      }
      var iv, flags := drawn, FLAG_CBC;
      if mode == GCM {
        flags := FLAG_GCM;
        iv := NextGcmNonce();
      }
      if iv.None? {
        return None;
      }
      var size := if mode == CBC then PaddedLength(|payload|) else |payload| + TAG;
      if size > limits.maxWireBody {
        return None;
      }
      var header := MarshalHeader(mac, flags, iv.value, size);
      var body;
      if mode == CBC {
        var padded := PadBlocks(payload);
        body := c.encrypt(key.value, iv.value, padded);
      } else {
        body := c.seal(key.value, iv.value, payload, header);
      }
      return Some(header + body);
    }
  }

  // ---- The decoder ---------------------------------------------------------------------------------

  datatype Decoder = Decoder(limits: Limits, expectedMac: Option<Mac>, expectedMode: Option<Mode>)

  /** The encryption mode that a packet's flags name. */
  function ModeOf(flags: int): Option<Mode> {
    if flags == FLAG_CBC then Some(CBC) else if flags == FLAG_GCM then Some(GCM) else None
  }

  function Open(c: Cipher, key: Block, mode: Mode, iv: Block, header: seq<Byte>, body: seq<Byte>): Option<seq<Byte>> {
    if mode == GCM then (if |body| < TAG then None else c.open(key, iv, body, header))
    else if |body| % BLOCK != 0 then None
    else Strip(c.decrypt(key, iv, body))
  }

  /** A decoder without limits uses the default ones. */
  function Bounds(d: Decoder): Limits {
    if d.limits == Limits(0, 0) then DEFAULT_LIMITS else d.limits
  }

  predicate HeaderFits(d: Decoder, data: seq<Byte>) {
    && |data| >= HEADER && data[..4] == MAGIC && U32At(data[4..8]) == PACKET_VERSION && U32At(data[32..36]) == PAYLOAD_VERSION
    && ValidMac(data[8..14]) && (d.expectedMac.Some? ==> d.expectedMac.value == data[8..14])
    && ModeOf(U16At(data[14..16])).Some?
    && (d.expectedMode.Some? ==> Some(d.expectedMode.value) == ModeOf(U16At(data[14..16])))
    && U32At(data[36..40]) <= Bounds(d).maxWireBody && U32At(data[36..40]) == |data| - HEADER && |data| > HEADER
  }

  function Decode(c: Cipher, d: Decoder, data: seq<Byte>, keyText: string): Option<Packet> {
    if !Bounds(d).Valid() || !HeaderFits(d, data) || ParseKey(keyText).None? then None
    else
      var mode, iv := ModeOf(U16At(data[14..16])).value, data[16..32];
      match Open(c, ParseKey(keyText).value, mode, iv, data[..HEADER], data[HEADER..])
      case None => None
      case Some(plain) =>
        if plain == [] || |plain| > Bounds(d).maxPlaintext then None
        else Some(Packet(data[8..14], plain, if mode == GCM then Some(iv) else None))
  }

  /** The fields of a header read back. */
  lemma HeaderFields(mac: Mac, flags: int, iv: Block, size: nat, body: seq<Byte>)
    requires 0 <= flags < 0x1_0000 && size < 0x1_0000_0000
    ensures var data := Header(mac, flags, iv, size) + body;
      && |data| == HEADER + |body| && data[..HEADER] == Header(mac, flags, iv, size) && data[HEADER..] == body
      && data[..4] == MAGIC && U32At(data[4..8]) == PACKET_VERSION && data[8..14] == mac && U16At(data[14..16]) == flags
      && data[16..32] == iv && U32At(data[32..36]) == PAYLOAD_VERSION && U32At(data[36..40]) == size
  {
    hide U16, U32, U16At, U32At;
    var h := Header(mac, flags, iv, size);
    var data := h + body;
    U32RoundTrip(PACKET_VERSION);
    U32RoundTrip(PAYLOAD_VERSION);
    U32RoundTrip(size);
    U16RoundTrip(flags, [0, 0]);
    assert data[4..8] == h[4..8] == U32(PACKET_VERSION);
    assert data[14..16] == h[14..16] == U16(flags);
    assert data[32..36] == h[32..36] == U32(PAYLOAD_VERSION);
    assert data[36..40] == h[36..40] == U32(size);
    assert data[8..14] == h[8..14] == mac;
    assert data[16..32] == h[16..32] == iv;
  }

  /** Whatever an encoder produces, a decoder with the same limits, and with no expectations or the right ones, turns
      back into the same sender, payload, mode and - for GCM - nonce, given only that the cipher is lawful. */
  lemma DecodeInvertsEncode(c: Cipher, d: Decoder, s: Sequence, mac: Mac, payload: seq<Byte>, keyText: string,
                            mode: Mode, drawn: Option<Block>)
    requires Lawful(c) && Bounds(d).Valid() && Bounds(d).maxWireBody < 0x1_0000_0000 && 0 <= s.next < U64_WRAP
    requires (d.expectedMac.Some? ==> d.expectedMac.value == mac) && (d.expectedMode.Some? ==> d.expectedMode.value == mode)
    ensures var (s', out) := Encode(c, Bounds(d), s, mac, payload, keyText, mode, drawn);
      out.Some? ==>
        var iv := if mode == GCM then NextNonce(s).1 else None;
        (mode == GCM ==> iv.Some?) && Decode(c, d, out.value, keyText) == Some(Packet(mac, payload, iv))
  {
    hide ParseKey, ValidMac, Header, Pad, Strip, U64;
    var (s', out) := Encode(c, Bounds(d), s, mac, payload, keyText, mode, drawn);
    if out.Some? {
      var key := ParseKey(keyText).value;
      var iv := if mode == CBC then drawn.value else NextNonce(s).1.value;
      var size := if mode == CBC then PaddedLength(|payload|) else |payload| + TAG;
      var flags := if mode == CBC then FLAG_CBC else FLAG_GCM;
      var header := Header(mac, flags, iv, size);
      var body := if mode == CBC then c.encrypt(key, iv, Pad(payload)) else c.seal(key, iv, payload, header);
      SealedSize(c, key, iv, payload, header);
      HeaderFields(mac, flags, iv, size, body);
      StripInvertsPad(payload, []);
    }
  }

  lemma SealedSize(c: Cipher, key: Block, iv: Block, payload: seq<Byte>, header: seq<Byte>)
    requires Lawful(c)
    ensures |c.encrypt(key, iv, Pad(payload))| == PaddedLength(|payload|)
    ensures c.decrypt(key, iv, c.encrypt(key, iv, Pad(payload))) == Pad(payload)
    ensures |c.seal(key, iv, payload, header)| == |payload| + TAG
    ensures c.open(key, iv, c.seal(key, iv, payload, header), header) == Some(payload)
  {
  }

  /** The decoder accepts no other header than the one the encoder would write for the same content: what it does not
      read is the nonce or vector alone. */
  lemma AcceptedHeaderIsCanonical(c: Cipher, d: Decoder, data: seq<Byte>, keyText: string)
    requires Decode(c, d, data, keyText).Some?
    ensures var p := Decode(c, d, data, keyText).value; var mode := if p.nonce.Some? then GCM else CBC;
      && |data| > HEADER && ValidMac(p.mac)
      && data[..HEADER] == Header(p.mac, if mode == GCM then FLAG_GCM else FLAG_CBC, data[16..32], |data| - HEADER)
      && (p.nonce.Some? ==> p.nonce.value == data[16..32])
      && Open(c, ParseKey(keyText).value, mode, data[16..32], data[..HEADER], data[HEADER..]) == Some(p.payload)
  {
    hide ParseKey, ValidMac, Open, U16, U32, U16At, U32At, Limits.Valid;
    U32Inverse(data[4..8]);
    U32Inverse(data[32..36]);
    U32Inverse(data[36..40]);
    U16RoundTrip(0, data[14..16]);
    var h := data[..HEADER];
    assert h == data[..4] + data[4..8] + data[8..14] + data[14..16] + data[16..32] + data[32..36] + data[36..40];
  }

  // ---- Nonces over a run ---------------------------------------------------------------------------

  datatype Call = Call(mac: Mac, payload: seq<Byte>, keyText: string, mode: Mode, drawn: Option<Block>)

  /** The packets that one encoder produces for a list of calls. */
  function Outputs(c: Cipher, limits: Limits, s: Sequence, calls: seq<Call>): (out: seq<Option<seq<Byte>>>)
    requires 0 <= s.next < U64_WRAP
    ensures |out| == |calls|
    decreases |calls|
  {
    if calls == [] then []
    else
      var k := calls[0];
      var (s', data) := Encode(c, limits, s, k.mac, k.payload, k.keyText, k.mode, k.drawn);
      [data] + Outputs(c, limits, s', calls[1..])
  }

  lemma U64Injective(v: int, w: int)
    requires 0 <= v < U64_WRAP && 0 <= w < U64_WRAP && U64(v) == U64(w)
    ensures v == w
  {
    hide U32;
    assert U64(v)[..4] == U32(v / 0x1_0000_0000) && U64(v)[4..] == U32(v % 0x1_0000_0000);
    assert U64(w)[..4] == U32(w / 0x1_0000_0000) && U64(w)[4..] == U32(w % 0x1_0000_0000);
    U32RoundTrip(v / 0x1_0000_0000);
    U32RoundTrip(w / 0x1_0000_0000);
    U32RoundTrip(v % 0x1_0000_0000);
    U32RoundTrip(w % 0x1_0000_0000);
  }

  /** The packet carries the prefix and a counter value that the sequence had reached and no earlier one. */
  predicate Numbered(data: Option<seq<Byte>>, prefix: Prefix, v: int) {
    0 < v < U64_WRAP && (data.Some? ==> |data.value| >= 32 && data.value[16..32] == prefix + U64(v))
  }

  /** An encoding call in GCM mode either fails or uses the current counter value, and every call moves the counter
      forward or leaves it; it never comes back from zero. */
  lemma EncodeStep(c: Cipher, limits: Limits, s: Sequence, k: Call)
    requires 0 <= s.next < U64_WRAP
    ensures var (s', data) := Encode(c, limits, s, k.mac, k.payload, k.keyText, k.mode, k.drawn);
      && s'.prefix == s.prefix && (s' == s || (s.next != 0 && s'.next == (s.next + 1) % U64_WRAP))
      && (k.mode == GCM && data.Some? ==> s.next != 0 && s' != s && Numbered(data, s.prefix, s.next))
  {
    hide ParseKey, ValidMac, Pad, U64, Header;
    var (s', data) := Encode(c, limits, s, k.mac, k.payload, k.keyText, k.mode, k.drawn);
    if k.mode == GCM && data.Some? {
      var iv := s.prefix + U64(s.next);
      var header := Header(k.mac, FLAG_GCM, iv, |k.payload| + TAG);
      HeaderIv(k.mac, FLAG_GCM, iv, |k.payload| + TAG);
      assert data.value[16..32] == header[16..32];
    }
  }

  lemma HeaderIv(mac: Mac, flags: int, iv: Block, size: nat)
    requires 0 <= flags < 0x1_0000
    ensures Header(mac, flags, iv, size)[16..32] == iv
  {
    hide U16, U32;
  }

  /** Every later GCM packet carries a value at least as large as the counter. */
  lemma {:induction false} LaterValue(c: Cipher, limits: Limits, s: Sequence, calls: seq<Call>, i: nat) returns (v: int)
    requires 0 <= s.next < U64_WRAP && i < |calls| && calls[i].mode == GCM
    requires Outputs(c, limits, s, calls)[i].Some?
    ensures 0 < s.next <= v && Numbered(Outputs(c, limits, s, calls)[i], s.prefix, v)
    decreases |calls|
  {
    hide Encode, Numbered;
    EncodeStep(c, limits, s, calls[0]);
    if i == 0 {
      v := s.next;
      CurrentValue(c, limits, s, calls);
    } else {
      var k := calls[0];
      var s' := Encode(c, limits, s, k.mac, k.payload, k.keyText, k.mode, k.drawn).0;
      v := LaterValue(c, limits, s', calls[1..], i - 1);
    }
  }

  lemma CurrentValue(c: Cipher, limits: Limits, s: Sequence, calls: seq<Call>)
    requires 0 <= s.next < U64_WRAP && calls != [] && calls[0].mode == GCM && Outputs(c, limits, s, calls)[0].Some?
    ensures s.next != 0 && Numbered(Outputs(c, limits, s, calls)[0], s.prefix, s.next)
  {
    hide Encode, Numbered;
    EncodeStep(c, limits, s, calls[0]);
  }

  /** No two GCM packets of one encoder ever carry the same nonce, whatever calls fail or use CBC in between: after the
      last counter value it refuses. */
  lemma {:induction false} NoncesNeverRepeat(c: Cipher, limits: Limits, s: Sequence, calls: seq<Call>, i: nat, j: nat)
    requires 0 <= s.next < U64_WRAP && i < j < |calls| && calls[i].mode == GCM && calls[j].mode == GCM
    requires Outputs(c, limits, s, calls)[i].Some? && Outputs(c, limits, s, calls)[j].Some?
    ensures var (a, b) := (Outputs(c, limits, s, calls)[i].value, Outputs(c, limits, s, calls)[j].value);
      |a| >= 32 && |b| >= 32 && a[16..32] != b[16..32]
    decreases |calls|
  {
    hide Encode, U64;
    var k := calls[0];
    var s' := Encode(c, limits, s, k.mac, k.payload, k.keyText, k.mode, k.drawn).0;
    EncodeStep(c, limits, s, k);
    if i == 0 {
      CurrentValue(c, limits, s, calls);
      var v := LaterValue(c, limits, s', calls[1..], j - 1);
      if U64(v) == U64(s.next) {
        U64Injective(v, s.next);
      }
      assert (s.prefix + U64(v))[8..] == U64(v) && (s.prefix + U64(s.next))[8..] == U64(s.next);
    } else {
      NoncesNeverRepeat(c, limits, s', calls[1..], i - 1, j - 1);
    }
  }
}
