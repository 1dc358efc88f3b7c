/** The discovery packet byte by byte, with the numbers of the protocol: what stands where in an announcement, and what each
    record means to the parser. */
module DiscoveryWire {
  import opened Basics
  import opened Discovery

  // ---- Numbers on the wire -----------------------------------------------------------------------------

  function Two(v: int): (b: seq<Byte>)
    requires 0 <= v < 65536
    ensures |b| == 2
  {
    [v / 256, v % 256]
  }

  function Four(v: int): (b: seq<Byte>)
    requires 0 <= v < 4294967296
    ensures |b| == 4
  {
    [v / 16777216, v / 65536 % 256, v / 256 % 256, v % 256]
  }

  function Number2(a: int, b: int): int {
    a * 256 + b
  }

  function Number4(a: int, b: int, c: int, d: int): int {
    a * 16777216 + b * 65536 + c * 256 + d
  }

  // ---- What is written ---------------------------------------------------------------------------------

  /** A record: its code, the length of its value, most significant byte first, and the value. */
  function Record(code: Byte, value: seq<Byte>): seq<Byte>
    requires |value| < 65536
  {
    [code] + Two(|value|) + value
  }

  function NonEmpty(b: seq<Byte>): Option<seq<Byte>> {
    if b == [] then None else Some(b)
  }

  /** The last four bytes of an address, whichever of its forms it has. */
  function Ipv4Bytes(ip: Option<seq<Byte>>): Option<seq<Byte>> {
    if ip.Some? && |ip.value| == 4 then ip
    else if ip.Some? && |ip.value| == 16 && ip.value[..12] == [0, 0, 0, 0, 0, 0, 0, 0, 0, 0, 255, 255] then Some(ip.value[12..])
    else None
  }

  /** What a record of this code says of an announcement, if it is written. */
  function Value(a: Announcement, code: Byte): Option<seq<Byte>> {
    match code
    case 0x01 => NonEmpty(a.mac)
    case 0x03 => NonEmpty(a.firmware)
    case 0x04 => Ipv4Bytes(a.ipv4)
    case 0x05 => a.deviceMac
    case 0x0a => (match a.uptime case None => None case Some(v) => Some(Four(v)))
    case 0x0b => NonEmpty(a.hostname)
    case 0x0c => NonEmpty(a.platform)
    case 0x0d => NonEmpty(a.essid)
    case 0x0e => if a.wmode == 0 then None else Some(Four(a.wmode))
    case 0x10 => (match a.boardId case None => None case Some(v) => Some(Two(v)))
    case 0x12 => if a.sequence == 0 then None else Some(Four(a.sequence))
    case 0x13 => NonEmpty(a.sourceMac)
    case 0x14 => NonEmpty(a.hardware)
    case 0x15 => NonEmpty(a.model)
    case 0x16 => NonEmpty(a.versionText)
    case 0x17 => (match a.isDefault case None => None case Some(v) => Some([if v then 1 else 0]))
    case 0x26 => (match a.controllerUuid case None => None case Some(v) => Some(v))
    case 0x27 => (match a.hashId case None => None case Some(v) => Some(v))
    case 0x2a => (match a.anonId case None => None case Some(v) => Some(v))
    case 0x2b => (match a.profileUuid case None => None case Some(v) => Some(v))
    case 0x2c => (match a.field2c case None => None case Some(v) => Some([v]))
    case 0x2d => (match a.field2d case None => None case Some(v) => Some(Four(v)))
    case 0x35 => Ipv4Bytes(a.netmask)
    case _ => None
  }

  lemma ValuesAre(a: Announcement, code: Byte)
    ensures Get(a, code) == Value(a, code)
  {
    hide Four, U32, Two, U16;
    if a.uptime.Some? {
      FourIs(a.uptime.value);
    }
    if a.field2d.Some? {
      FourIs(a.field2d.value);
    }
    if a.boardId.Some? {
      TwoIs(a.boardId.value);
    }
    FourIs(a.wmode);
    FourIs(a.sequence);
  }

  lemma FourIs(v: int)
    requires 0 <= v < 4294967296
    ensures Four(v) == U32(v)
  {
  }

  lemma TwoIs(v: int)
    requires 0 <= v < 65536
    ensures Two(v) == U16(v)
  {
  }

  lemma ValuesAreShort(a: Announcement, code: Byte)
    requires ValidIdentity(a) && (code == 0x13 ==> a.version == 2) && Value(a, code).Some?
    ensures |Value(a, code).value| <= 1024
  {
    hide ValidText, ValidMac, Four, Two;
    ShortTexts(a);
  }

  /** The records of these codes in this order, leaving out those that are not written. */
  function Records(a: Announcement, codes: seq<Byte>): seq<Byte> {
    if codes == [] then []
    else
      (if Value(a, codes[0]).Some? && |Value(a, codes[0]).value| < 65536 then Record(codes[0], Value(a, codes[0]).value) else []) +
        Records(a, codes[1..])
  }

  /** One record for each address: its MAC and its IPv4 address, under code 2. */
  function AddressList(addresses: seq<Address>): seq<Byte> {
    if addresses == [] then []
    else
      var ip := Ipv4Bytes(Some(addresses[0].ip));
      (if ip.Some? && |addresses[0].mac| < 32768 then Record(0x02, addresses[0].mac + ip.value) else []) + AddressList(addresses[1..])
  }

  function FirstCodes(a: Announcement): seq<Byte> {
    (if a.version == 2 then [0x15] else []) + [0x0c, 0x14, 0x0b, 0x0a, 0x04]
  }

  /** The codes after the addresses, in the order of the device firmware. */
  function LastCodes(a: Announcement): seq<Byte> {
    [0x01, 0x05, 0x03, 0x10, 0x17] + (if a.uuidFirst then [0x26] else []) + [0x27, 0x2a, 0x0d, 0x0e] +
    (if a.version == 2 then [0x12, 0x13, 0x16, 0x2d] + (if a.uuidFirst then [] else [0x26]) + [0x2b, 0x2c] else []) + [0x35]
  }

  function WireBody(a: Announcement): seq<Byte> {
    Records(a, FirstCodes(a)) + AddressList(a.addresses) + Records(a, LastCodes(a))
  }

  lemma {:induction false} RecordsAre(a: Announcement, codes: seq<Byte>)
    ensures Fields(a, codes) == Records(a, codes)
  {
    hide Get, Value;
    if codes != [] {
      ValuesAre(a, codes[0]);
      RecordsAre(a, codes[1..]);
    }
  }

  lemma {:induction false} AddressListIs(addresses: seq<Address>)
    ensures AddressRecords(addresses) == AddressList(addresses)
  {
    if addresses != [] {
      AddressListIs(addresses[1..]);
    }
  }

  lemma CodesAre(a: Announcement)
    ensures EarlierKinds(a) == FirstCodes(a) && LaterKinds(a) == LastCodes(a)
  {
  }

  /** An announcement that is sent has a valid identity and is at most 8192 bytes long: version, command, the length of the
      body, most significant byte first, and the body, record by record. */
  lemma PacketExactly(a: Announcement)
    ensures var body := WireBody(a);
      if ValidIdentity(a) && |body| + 4 <= 8192 then Marshal(a) == Some([a.version, a.command] + Two(|body|) + body)
      else Marshal(a).None?
  {
    hide ValidIdentity, Fields, Records, AddressRecords, AddressList, FirstCodes, LastCodes, EarlierKinds, LaterKinds;
    CodesAre(a);
    RecordsAre(a, FirstCodes(a));
    RecordsAre(a, LastCodes(a));
    AddressListIs(a.addresses);
  }

  lemma {:induction false} RecordsSplit(a: Announcement, x: seq<Byte>, y: seq<Byte>)
    ensures Records(a, x + y) == Records(a, x) + Records(a, y)
  {
    if x == [] {
      assert x + y == y;
    } else {
      assert (x + y)[1..] == x[1..] + y;
      RecordsSplit(a, x[1..], y);
    }
  }

  /** The codes that an announcement of this version may carry. */
  predicate Carried(version: Byte, code: Byte) {
    || code in {0x01, 0x03, 0x04, 0x05, 0x0a, 0x0b, 0x0c, 0x0d, 0x0e, 0x10, 0x14, 0x17, 0x27, 0x2a, 0x35}
    || (version == 2 && code in {0x12, 0x13, 0x15, 0x16, 0x2b, 0x2c, 0x2d})
  }

  lemma {:induction false} RecordIsThere(a: Announcement, codes: seq<Byte>, code: Byte)
    returns (before: seq<Byte>, after: seq<Byte>)
    requires code in codes && Value(a, code).Some? && |Value(a, code).value| < 65536
    ensures Records(a, codes) == before + Record(code, Value(a, code).value) + after
  {
    hide Value, Record;
    var i :| 0 <= i < |codes| && codes[i] == code;
    var x, y := codes[..i], codes[i + 1..];
    assert codes == x + ([code] + y);
    RecordsSplit(a, x, [code] + y);
    assert ([code] + y)[1..] == y;
    before, after := Records(a, x), Records(a, y);
  }

  /** Every field that an announcement has and its version knows is in the body, as a record of its code. The controller
      identifier is there in version 2, or when it is placed early. */
  lemma FieldIsSent(a: Announcement, code: Byte) returns (before: seq<Byte>, after: seq<Byte>)
    requires ValidIdentity(a) && Value(a, code).Some?
    requires Carried(a.version, code) || (code == 0x26 && (a.version == 2 || a.uuidFirst))
    ensures |Value(a, code).value| <= 1024 && WireBody(a) == before + Record(code, Value(a, code).value) + after
  {
    hide ValidIdentity, Value, Records, AddressList, Record;
    ValuesAreShort(a, code);
    if code in {0x0c, 0x14, 0x0b, 0x0a, 0x04} || code == 0x15 {
      InFirst(a, code);
      before, after := RecordIsThere(a, FirstCodes(a), code);
      after := after + AddressList(a.addresses) + Records(a, LastCodes(a));
    } else {
      InLast(a, code);
      before, after := RecordIsThere(a, LastCodes(a), code);
      before := Records(a, FirstCodes(a)) + AddressList(a.addresses) + before;
    }
  }

  lemma InFirst(a: Announcement, code: Byte)
    requires code in {0x0c, 0x14, 0x0b, 0x0a, 0x04} || (code == 0x15 && a.version == 2)
    ensures code in FirstCodes(a)
  {
  }

  lemma InLast(a: Announcement, code: Byte)
    requires code !in {0x0c, 0x14, 0x0b, 0x0a, 0x04} && code != 0x15
    requires Carried(a.version, code) || (code == 0x26 && (a.version == 2 || a.uuidFirst))
    ensures code in LastCodes(a)
  {
  }

  /** A unicast address that is not all zeros. */
  predicate Unicast(mac: seq<Byte>) {
    |mac| == 6 && mac[0] % 2 == 0 && !(mac[0] == mac[1] == mac[2] == mac[3] == mac[4] == mac[5] == 0)
  }

  predicate Printable(b: seq<Byte>) {
    |b| <= 1024 && forall i :: 0 <= i < |b| ==> 32 <= b[i] <= 126
  }

  /** An identity that may be announced: up to sixteen addresses, one of them the primary one, printable texts, and in
      version 2 a sequence number, a model and the same MAC as source. */
  lemma IdentitiesExactly(a: Announcement)
    ensures ValidIdentity(a) <==>
      && (a.version == 1 || a.version == 2) && Unicast(a.mac) && 1 <= |a.addresses| <= 16
      && (forall i :: 0 <= i < |a.addresses| ==> Unicast(a.addresses[i].mac) && Ipv4Bytes(Some(a.addresses[i].ip)).Some?)
      && (exists i :: 0 <= i < |a.addresses| && IsPrimary(a, a.addresses[i]))
      && Printable(a.firmware) && a.firmware != [] && Printable(a.hostname) && a.hostname != []
      && Printable(a.platform) && a.platform != [] && Printable(a.hardware) && Printable(a.essid)
      && Printable(a.model) && Printable(a.versionText)
      && (a.netmask.Some? ==> Ipv4Bytes(a.netmask).Some?) && (a.ipv4.Some? ==> Ipv4Bytes(a.ipv4).Some?)
      && (a.deviceMac.Some? ==> a.deviceMac.value == a.mac)
      && (a.version == 2 ==> a.sequence != 0 && a.model != [] && a.sourceMac == a.mac)
  {
    hide ValidText, Printable, ValidMac, Unicast, To4, Ipv4Bytes;
    MacsAre();
    AddressesAre();
    PrintableIs(a.firmware);
    PrintableIs(a.hostname);
    PrintableIs(a.platform);
    PrintableIs(a.hardware);
    PrintableIs(a.essid);
    PrintableIs(a.model);
    PrintableIs(a.versionText);
    assert forall i :: 0 <= i < |a.addresses| ==> (IsPrimary(a, a.addresses[i]) <==> MatchesPrimary(a, a.addresses[i]));
  }

  predicate IsPrimary(a: Announcement, address: Address) {
    address.mac == a.mac && (a.ipv4.None? || Ipv4Bytes(Some(address.ip)) == Ipv4Bytes(a.ipv4))
  }

  lemma MacsAre()
    ensures forall mac: seq<Byte> :: ValidMac(mac) <==> Unicast(mac)
  {
  }

  lemma AddressesAre()
    ensures forall ip: seq<Byte> :: To4(ip) == Ipv4Bytes(Some(ip))
  {
  }

  // ---- What is read ------------------------------------------------------------------------------------

  /** Codes of which a packet may have one record only. */
  predicate Once(code: Byte) {
    code in {0x01, 0x03, 0x04, 0x05, 0x0a, 0x0b, 0x0c, 0x0d, 0x0e, 0x10, 0x12, 0x13, 0x14, 0x15, 0x16, 0x17, 0x26, 0x27, 0x2a, 0x2b,
             0x2c, 0x2d, 0x35}
  }

  function Spelled(b: seq<Byte>): (v: int)
    requires |b| == 4
    ensures 0 <= v < 4294967296
  {
    Number4(b[0], b[1], b[2], b[3])
  }

  /** What a record does to the announcement read so far; None when it is refused. Some are for version 2 only. Records of
      unknown codes are skipped. */
  function Meaning(a: Announcement, code: Byte, b: seq<Byte>): Option<Announcement> {
    var second := a.version == 2;
    match code
    case 0x01 => if |b| == 6 then Some(a.(mac := b)) else None
    case 0x02 => if |b| == 10 && |a.addresses| < 16 then Some(a.(addresses := a.addresses + [Address(b[..6], b[6..])])) else None
    case 0x03 => if Printable(b) then Some(a.(firmware := b)) else None
    case 0x04 => if |b| == 4 then Some(a.(ipv4 := Some(b))) else None
    case 0x05 => if |b| == 6 then Some(a.(deviceMac := Some(b))) else None
    case 0x0a => if |b| == 4 then Some(a.(uptime := Some(Spelled(b)))) else None
    case 0x0b => if Printable(b) then Some(a.(hostname := b)) else None
    case 0x0c => if Printable(b) then Some(a.(platform := b)) else None
    case 0x0d => if Printable(b) then Some(a.(essid := b)) else None
    case 0x0e => if |b| == 4 then Some(a.(wmode := Spelled(b))) else None
    case 0x10 => if |b| == 2 then Some(a.(boardId := Some(Number2(b[0], b[1])))) else None
    case 0x12 => if second && |b| == 4 then Some(a.(sequence := Spelled(b))) else None
    case 0x13 => if second && |b| == 6 then Some(a.(sourceMac := b)) else None
    case 0x14 => if Printable(b) then Some(a.(hardware := b)) else None
    case 0x15 => if second && Printable(b) then Some(a.(model := b)) else None
    case 0x16 => if second && Printable(b) then Some(a.(versionText := b)) else None
    case 0x17 => if |b| == 1 && b[0] <= 1 then Some(a.(isDefault := Some(b[0] == 1))) else None
    case 0x26 => if second && |b| == 16 then Some(a.(controllerUuid := Some(b))) else None
    case 0x27 => if |b| == 8 then Some(a.(hashId := Some(b))) else None
    case 0x2a => if |b| == 16 then Some(a.(anonId := Some(b))) else None
    case 0x2b => if second && |b| == 16 then Some(a.(profileUuid := Some(b))) else None
    case 0x2c => if second && |b| == 1 then Some(a.(field2c := Some(b[0]))) else None
    case 0x2d => if second && |b| == 4 then Some(a.(field2d := Some(Spelled(b)))) else None
    case 0x35 => if |b| == 4 then Some(a.(netmask := Some(b))) else None
    case _ => Some(a)
  }

  lemma TakeExactly(a: Announcement, seen: set<Byte>, code: Byte, b: seq<Byte>)
    ensures Take(a, seen, code, b) == if Once(code) && code in seen then None else Meaning(a, code, b)
    ensures Mark(seen, code) == if Once(code) then seen + {code} else seen
  {
    hide ValidText, Printable, Spelled, U32At, U16At, Number2;
    PrintableIs(b);
    if |b| == 4 {
      SpelledIs(b);
    }
    if |b| == 2 {
      PairIs(b);
    }
  }

  lemma PrintableIs(b: seq<Byte>)
    ensures ValidText(b) <==> Printable(b)
  {
  }

  lemma SpelledIs(b: seq<Byte>)
    requires |b| == 4
    ensures Spelled(b) == U32At(b)
  {
  }

  lemma PairIs(b: seq<Byte>)
    requires |b| == 2
    ensures Number2(b[0], b[1]) == U16At(b)
  {
  }

  /** A packet of one record: it sets exactly the field of its code, in an otherwise empty announcement. */
  lemma OneRecordExactly(version: Byte, command: Byte, code: Byte, b: seq<Byte>)
    requires |b| <= 8185
    ensures var packet := [version, command] + Two(3 + |b|) + Record(code, b);
      Parse(packet) ==
        if version == 1 || version == 2 then
          Meaning(Announcement(version, command, [], [], [], None, None, None, [], [], [], [], 0, None, 0, [], [], [], None, None,
                               false, None, None, None, None, None, None), code, b)
        else None
  {
    hide Meaning, Take, Empty;
    var packet := [version, command] + Two(3 + |b|) + Record(code, b);
    var empty := Empty(version, command);
    EmptyIs(version, command);
    assert packet[2..4] == [packet[2], packet[3]];
    PairIs(packet[2..4]);
    var body := packet[4..];
    assert body == Record(code, b);
    assert body[1..3] == Two(|b|) && body[3..3 + |b|] == b && body[3 + |b|..] == [];
    PairIs(body[1..3]);
    TwoReads(|b|);
    TwoReads(3 + |b|);
    TakeExactly(empty, {}, code, b);
    assert U16At(body[1..3]) == |b| && U16At(packet[2..4]) == |packet| - 4;
    var next := Take(empty, {}, code, b);
    assert next.Some? ==> ParseRecords(next.value, Mark({}, code), []) == next;
    assert ParseRecords(empty, {}, body) == next;
  }

  lemma TwoReads(v: int)
    requires 0 <= v < 65536
    ensures Number2(Two(v)[0], Two(v)[1]) == v
  {
  }

  lemma EmptyIs(version: Byte, command: Byte)
    ensures Empty(version, command) ==
      Announcement(version, command, [], [], [], None, None, None, [], [], [], [], 0, None, 0, [], [], [], None, None,
                   false, None, None, None, None, None, None)
  {
  }
}
