/** The discovery announcement: its type-length-value writer and parser. */
module Discovery {
  import opened Basics

  const MAX_DATAGRAM := 8192
  const MAX_TEXT := 1024
  const MAX_ADDRESSES := 16

  const MAC: Byte := 0x01
  const MAC_IP: Byte := 0x02
  const FIRMWARE: Byte := 0x03
  const IPV4: Byte := 0x04
  const DEVICE_MAC: Byte := 0x05
  const UPTIME: Byte := 0x0a
  const HOSTNAME: Byte := 0x0b
  const PLATFORM: Byte := 0x0c
  const ESSID: Byte := 0x0d
  const WMODE: Byte := 0x0e
  const BOARD_ID: Byte := 0x10
  const SEQUENCE: Byte := 0x12
  const SOURCE_MAC: Byte := 0x13
  const HARDWARE: Byte := 0x14
  const MODEL: Byte := 0x15
  const VERSION: Byte := 0x16
  const IS_DEFAULT: Byte := 0x17
  const CONTROLLER_UUID: Byte := 0x26
  const HASH_ID: Byte := 0x27
  const ANON_ID: Byte := 0x2a
  const PROFILE_UUID: Byte := 0x2b
  const FIELD_2C: Byte := 0x2c
  const FIELD_2D: Byte := 0x2d
  const NETMASK: Byte := 0x35

  type Word16 = v: int | 0 <= v < 0x1_0000
  type Word32 = v: int | 0 <= v < 0x1_0000_0000
  type Bytes8 = b: seq<Byte> | |b| == 8 witness [0, 0, 0, 0, 0, 0, 0, 0]
  type Bytes16 = b: seq<Byte> | |b| == 16 witness [0, 0, 0, 0, 0, 0, 0, 0, 0, 0, 0, 0, 0, 0, 0, 0]

  datatype Address = Address(mac: seq<Byte>, ip: seq<Byte>)

  /** A nil slice is None where the source distinguishes it, and empty where it does not. */
  datatype Announcement = Announcement(
    version: Byte, command: Byte, mac: seq<Byte>, addresses: seq<Address>, firmware: seq<Byte>, ipv4: Option<seq<Byte>>,
    deviceMac: Option<seq<Byte>>, uptime: Option<Word32>, hostname: seq<Byte>, platform: seq<Byte>, hardware: seq<Byte>,
    essid: seq<Byte>, wmode: Word32, boardId: Option<Word16>, sequence: Word32, sourceMac: seq<Byte>, model: seq<Byte>,
    versionText: seq<Byte>, isDefault: Option<bool>, controllerUuid: Option<Bytes16>, uuidFirst: bool,
    hashId: Option<Bytes8>, anonId: Option<Bytes16>, profileUuid: Option<Bytes16>, field2c: Option<Byte>,
    field2d: Option<Word32>, netmask: Option<seq<Byte>>)

  function Empty(version: Byte, command: Byte): Announcement {
    Announcement(version, command, [], [], [], None, None, None, [], [], [], [], 0, None, 0, [], [], [], None, None,
                 false, None, None, None, None, None, None)
  }

  // ---- Validation ----------------------------------------------------------------------------------

  const V4_PREFIX: seq<Byte> := [0, 0, 0, 0, 0, 0, 0, 0, 0, 0, 255, 255]

  /** The four-byte form of an address, if it has one. */
  function To4(ip: seq<Byte>): (r: Option<seq<Byte>>)
    ensures r.Some? ==> |r.value| == 4
  {
    if |ip| == 4 then Some(ip) else if |ip| == 16 && ip[..12] == V4_PREFIX then Some(ip[12..]) else None
  }

  predicate ValidMac(mac: seq<Byte>) {
    |mac| == 6 && mac[0] % 2 == 0 && exists i :: 0 <= i < 6 && mac[i] != 0
  }

  predicate ValidText(text: seq<Byte>) {
    |text| <= MAX_TEXT && forall i :: 0 <= i < |text| ==> 0x20 <= text[i] <= 0x7e
  }

  predicate MatchesPrimary(a: Announcement, address: Address) {
    address.mac == a.mac && (a.ipv4 == None || To4(address.ip) == To4(a.ipv4.value))
  }

  predicate ValidIdentity(a: Announcement) {
    && (a.version == 1 || a.version == 2)
    && ValidMac(a.mac) && 1 <= |a.addresses| <= MAX_ADDRESSES
    && (forall i :: 0 <= i < |a.addresses| ==> ValidMac(a.addresses[i].mac) && To4(a.addresses[i].ip).Some?)
    && (exists i :: 0 <= i < |a.addresses| && MatchesPrimary(a, a.addresses[i]))
    && ValidText(a.firmware) && ValidText(a.hostname) && ValidText(a.platform) && ValidText(a.hardware)
    && ValidText(a.essid) && ValidText(a.model) && ValidText(a.versionText)
    && a.firmware != [] && a.hostname != [] && a.platform != []
    && (a.netmask.Some? ==> To4(a.netmask.value).Some?)
    && (a.ipv4.Some? ==> To4(a.ipv4.value).Some?)
    && (a.deviceMac.Some? ==> ValidMac(a.deviceMac.value) && a.deviceMac.value == a.mac)
    && (a.version == 2 ==> a.sequence != 0 && a.model != [] && ValidMac(a.sourceMac) && a.sourceMac == a.mac)
  }

  // ---- Records -------------------------------------------------------------------------------------

  function Tlv(kind: Byte, value: seq<Byte>): (b: seq<Byte>)
    requires |value| < 0x1_0000
    ensures |b| == 3 + |value|
  {
    [kind, |value| / 256, |value| % 256] + value
  }

  function TextField(text: seq<Byte>): Option<seq<Byte>> {
    if text == [] then None else Some(text)
  }

  function WordField(v: Option<Word32>): Option<seq<Byte>> {
    if v.Some? then Some(U32(v.value)) else None
  }

  function IpField(ip: Option<seq<Byte>>): Option<seq<Byte>> {
    if ip.Some? then To4(ip.value) else None
  }

  /** The value of a singleton record of an announcement, or None when it is left out. */
  function Get(a: Announcement, kind: Byte): Option<seq<Byte>> {
    if kind == MAC then TextField(a.mac)
    else if kind == FIRMWARE then TextField(a.firmware)
    else if kind == IPV4 then IpField(a.ipv4)
    else if kind == DEVICE_MAC then a.deviceMac
    else if kind == UPTIME then WordField(a.uptime)
    else if kind == HOSTNAME then TextField(a.hostname)
    else if kind == PLATFORM then TextField(a.platform)
    else if kind == ESSID then TextField(a.essid)
    else if kind == WMODE then WordField(if a.wmode == 0 then None else Some(a.wmode))
    else if kind == BOARD_ID then (if a.boardId.Some? then Some(U16(a.boardId.value)) else None)
    else if kind == SEQUENCE then WordField(if a.sequence == 0 then None else Some(a.sequence))
    else if kind == SOURCE_MAC then TextField(a.sourceMac)
    else if kind == HARDWARE then TextField(a.hardware)
    else if kind == MODEL then TextField(a.model)
    else if kind == VERSION then TextField(a.versionText)
    else if kind == IS_DEFAULT then (if a.isDefault.Some? then Some([if a.isDefault.value then 1 else 0]) else None)
    else if kind == CONTROLLER_UUID then (if a.controllerUuid.Some? then Some(a.controllerUuid.value) else None)
    else if kind == HASH_ID then (if a.hashId.Some? then Some(a.hashId.value) else None)
    else if kind == ANON_ID then (if a.anonId.Some? then Some(a.anonId.value) else None)
    else if kind == PROFILE_UUID then (if a.profileUuid.Some? then Some(a.profileUuid.value) else None)
    else if kind == FIELD_2C then (if a.field2c.Some? then Some([a.field2c.value]) else None)
    else if kind == FIELD_2D then WordField(a.field2d)
    else if kind == NETMASK then IpField(a.netmask)
    else None
  }

  predicate Singleton(kind: Byte) {
    kind in {MAC, FIRMWARE, IPV4, DEVICE_MAC, UPTIME, HOSTNAME, PLATFORM, ESSID, WMODE, BOARD_ID, SEQUENCE, SOURCE_MAC,
             HARDWARE, MODEL, VERSION, IS_DEFAULT, CONTROLLER_UUID, HASH_ID, ANON_ID, PROFILE_UUID, FIELD_2C, FIELD_2D,
             NETMASK}
  }

  /** What the parser demands of a record of a known kind. */
  predicate Accepts(version: Byte, kind: Byte, value: seq<Byte>) {
    if kind in {MAC, DEVICE_MAC} then |value| == 6
    else if kind in {FIRMWARE, HOSTNAME, PLATFORM, ESSID, HARDWARE} then ValidText(value)
    else if kind in {IPV4, UPTIME, WMODE, NETMASK} then |value| == 4
    else if kind == BOARD_ID then |value| == 2
    else if kind in {SEQUENCE, FIELD_2D} then version == 2 && |value| == 4
    else if kind == SOURCE_MAC then version == 2 && |value| == 6
    else if kind in {MODEL, VERSION} then version == 2 && ValidText(value)
    else if kind == IS_DEFAULT then |value| == 1 && value[0] <= 1
    else if kind in {CONTROLLER_UUID, PROFILE_UUID} then version == 2 && |value| == 16
    else if kind == HASH_ID then |value| == 8
    else if kind == ANON_ID then |value| == 16
    else if kind == FIELD_2C then version == 2 && |value| == 1
    else true
  }

  /** The announcement with one singleton record taken in; unknown kinds are skipped. */
  function Set(a: Announcement, kind: Byte, value: seq<Byte>): Announcement
    requires Accepts(a.version, kind, value)
  {
    if kind == MAC then a.(mac := value)
    else if kind == FIRMWARE then a.(firmware := value)
    else if kind == IPV4 then a.(ipv4 := Some(value))
    else if kind == DEVICE_MAC then a.(deviceMac := Some(value))
    else if kind == UPTIME then a.(uptime := Some(U32At(value)))
    else if kind == HOSTNAME then a.(hostname := value)
    else if kind == PLATFORM then a.(platform := value)
    else if kind == ESSID then a.(essid := value)
    else if kind == WMODE then a.(wmode := U32At(value))
    else if kind == BOARD_ID then a.(boardId := Some(U16At(value)))
    else if kind == SEQUENCE then a.(sequence := U32At(value))
    else if kind == SOURCE_MAC then a.(sourceMac := value)
    else if kind == HARDWARE then a.(hardware := value)
    else if kind == MODEL then a.(model := value)
    else if kind == VERSION then a.(versionText := value)
    else if kind == IS_DEFAULT then a.(isDefault := Some(value[0] == 1))
    else if kind == CONTROLLER_UUID then a.(controllerUuid := Some(value))
    else if kind == HASH_ID then a.(hashId := Some(value))
    else if kind == ANON_ID then a.(anonId := Some(value))
    else if kind == PROFILE_UUID then a.(profileUuid := Some(value))
    else if kind == FIELD_2C then a.(field2c := Some(value[0]))
    else if kind == FIELD_2D then a.(field2d := Some(U32At(value)))
    else if kind == NETMASK then a.(netmask := Some(value))
    else a
  }

  // ---- The parser ----------------------------------------------------------------------------------

  /** One record: None when it is a duplicate or malformed. */
  function Take(a: Announcement, seen: set<Byte>, kind: Byte, value: seq<Byte>): Option<Announcement> {
    if Singleton(kind) && kind in seen then None
    else if kind == MAC_IP then
      if |value| != 10 || |a.addresses| >= MAX_ADDRESSES then None
      else Some(a.(addresses := a.addresses + [Address(value[..6], value[6..])]))
    else if !Accepts(a.version, kind, value) then None
    else Some(Set(a, kind, value))
  }

  function Mark(seen: set<Byte>, kind: Byte): set<Byte> {
    if Singleton(kind) then seen + {kind} else seen
  }

  function ParseRecords(a: Announcement, seen: set<Byte>, body: seq<Byte>): Option<Announcement>
    decreases |body|
  {
    if body == [] then Some(a)
    else if |body| < 3 then None
    else
      var size := U16At(body[1..3]);
      if size > |body| - 3 then None
      else match Take(a, seen, body[0], body[3..3 + size])
        case None => None
        case Some(next) => ParseRecords(next, Mark(seen, body[0]), body[3 + size..])
  }

  function Parse(packet: seq<Byte>): Option<Announcement> {
    if |packet| < 4 || |packet| > MAX_DATAGRAM || !(packet[0] == 1 || packet[0] == 2) || U16At(packet[2..4]) != |packet| - 4 then None
    else ParseRecords(Empty(packet[0], packet[1]), {}, packet[4..])
  }

  method ParsePacket(packet: seq<Byte>) returns (r: Option<Announcement>)
    ensures r == Parse(packet)
  {
    hide Take, Accepts, Set;
    if |packet| < 4 || |packet| > MAX_DATAGRAM {
      return None;
    }
    if packet[0] != 1 && packet[0] != 2 {
      return None;
    }
    if U16At(packet[2..4]) != |packet| - 4 {
      return None;
    }
    var a, seen, body := Empty(packet[0], packet[1]), {}, packet[4..];
    while |body| > 0
      invariant ParseRecords(a, seen, body) == Parse(packet)
      decreases |body|
    {
      if |body| < 3 {
        return None;
      }
      var kind, size := body[0], U16At(body[1..3]);
      if size > |body| - 3 {
        return None;
      }
      var value := body[3..3 + size];
      body := body[3 + size..];
      var next := Take(a, seen, kind, value);
      if next.None? {
        return None;
      }
      a, seen := next.value, Mark(seen, kind);
    }
    return Some(a);
  }

  // ---- The writer ----------------------------------------------------------------------------------

  /** The bytes of one optional singleton record. */
  function Field(a: Announcement, kind: Byte): seq<Byte> {
    if Get(a, kind).Some? && |Get(a, kind).value| < 0x1_0000 then Tlv(kind, Get(a, kind).value) else []
  }

  function Fields(a: Announcement, kinds: seq<Byte>): seq<Byte> {
    if kinds == [] then [] else Field(a, kinds[0]) + Fields(a, kinds[1..])
  }

  function AddressRecord(address: Address): seq<Byte> {
    if To4(address.ip).Some? && |address.mac| < 0x8000 then Tlv(MAC_IP, address.mac + To4(address.ip).value) else []
  }

  function AddressRecords(addresses: seq<Address>): seq<Byte> {
    if addresses == [] then [] else AddressRecord(addresses[0]) + AddressRecords(addresses[1..])
  }

  // The order in which the device firmware writes its records.
  const NAMES: seq<Byte> := [PLATFORM, HARDWARE, HOSTNAME, UPTIME, IPV4]
  const CORE: seq<Byte> := [MAC, DEVICE_MAC, FIRMWARE, BOARD_ID, IS_DEFAULT]
  const OPAQUE: seq<Byte> := [HASH_ID, ANON_ID, ESSID, WMODE]
  const SECOND_START: seq<Byte> := [SEQUENCE, SOURCE_MAC, VERSION, FIELD_2D]
  const SECOND_END: seq<Byte> := [PROFILE_UUID, FIELD_2C]

  function Only(condition: bool, kinds: seq<Byte>): seq<Byte> {
    if condition then kinds else []
  }

  /** Records after the addresses. */
  function LaterKinds(a: Announcement): seq<Byte> {
    CORE + Only(a.uuidFirst, [CONTROLLER_UUID]) + OPAQUE +
    Only(a.version == 2, SECOND_START + Only(!a.uuidFirst, [CONTROLLER_UUID]) + SECOND_END) + [NETMASK]
  }

  function EarlierKinds(a: Announcement): seq<Byte> {
    Only(a.version == 2, [MODEL]) + NAMES
  }

  function Body(a: Announcement): seq<Byte> {
    Fields(a, EarlierKinds(a)) + AddressRecords(a.addresses) + Fields(a, LaterKinds(a))
  }

  function Marshal(a: Announcement): Option<seq<Byte>> {
    if !ValidIdentity(a) || |Body(a)| + 4 > MAX_DATAGRAM then None
    else Some([a.version, a.command] + U16(|Body(a)|) + Body(a))
  }

  // ---- Round trip ----------------------------------------------------------------------------------

  /** The announcement with every address in its four-byte form and the wire-ordering flag, which is not sent,
      cleared. */
  function Canonical(a: Announcement): Announcement {
    a.(ipv4 := IpField(a.ipv4), netmask := IpField(a.netmask), uuidFirst := false,
       addresses := CanonicalAddresses(a.addresses))
  }

  function CanonicalAddress(address: Address): Address {
    address.(ip := if To4(address.ip).Some? then To4(address.ip).value else address.ip)
  }

  /** Two announcements that agree on every singleton record and on what is not a record are equal. */
  lemma SameRecords(x: Announcement, y: Announcement)
    requires forall kind :: Get(x, kind) == Get(y, kind)
    requires x.version == y.version && x.command == y.command && x.addresses == y.addresses && x.uuidFirst == y.uuidFirst
    requires x.ipv4 == IpField(x.ipv4) && y.ipv4 == IpField(y.ipv4) && x.netmask == IpField(x.netmask) && y.netmask == IpField(y.netmask)
    ensures x == y
  {
    SameWords(x, y);
    SameTexts(x, y);
    SameIds(x, y);
  }

  lemma SameTexts(x: Announcement, y: Announcement)
    requires forall kind :: Get(x, kind) == Get(y, kind)
    ensures x.mac == y.mac && x.firmware == y.firmware && x.hostname == y.hostname && x.platform == y.platform
    ensures x.essid == y.essid && x.sourceMac == y.sourceMac && x.hardware == y.hardware && x.model == y.model
    ensures x.versionText == y.versionText
  {
    hide U16, U32, WordField, IpField;
    assert Get(x, MAC) == Get(y, MAC) && Get(x, FIRMWARE) == Get(y, FIRMWARE) && Get(x, HOSTNAME) == Get(y, HOSTNAME);
    assert Get(x, PLATFORM) == Get(y, PLATFORM) && Get(x, ESSID) == Get(y, ESSID) && Get(x, SOURCE_MAC) == Get(y, SOURCE_MAC);
    assert Get(x, HARDWARE) == Get(y, HARDWARE) && Get(x, MODEL) == Get(y, MODEL) && Get(x, VERSION) == Get(y, VERSION);
  }

  lemma SameIds(x: Announcement, y: Announcement)
    requires forall kind :: Get(x, kind) == Get(y, kind)
    ensures IpField(x.ipv4) == IpField(y.ipv4) && x.deviceMac == y.deviceMac && x.controllerUuid == y.controllerUuid
    ensures x.hashId == y.hashId && x.anonId == y.anonId && x.profileUuid == y.profileUuid
    ensures IpField(x.netmask) == IpField(y.netmask)
  {
    hide U16, U32, WordField, IpField, TextField;
    assert Get(x, IPV4) == Get(y, IPV4) && Get(x, DEVICE_MAC) == Get(y, DEVICE_MAC);
    assert Get(x, CONTROLLER_UUID) == Get(y, CONTROLLER_UUID) && Get(x, HASH_ID) == Get(y, HASH_ID);
    assert Get(x, ANON_ID) == Get(y, ANON_ID) && Get(x, PROFILE_UUID) == Get(y, PROFILE_UUID);
    assert Get(x, NETMASK) == Get(y, NETMASK);
  }

  lemma SameWords(x: Announcement, y: Announcement)
    requires forall kind :: Get(x, kind) == Get(y, kind)
    ensures x.uptime == y.uptime && x.wmode == y.wmode && x.boardId == y.boardId && x.sequence == y.sequence
    ensures x.isDefault == y.isDefault && x.field2c == y.field2c && x.field2d == y.field2d
  {
    SameLongWords(x, y);
    SameShortWords(x, y);
  }

  lemma SameLongWords(x: Announcement, y: Announcement)
    requires forall kind :: Get(x, kind) == Get(y, kind)
    ensures x.uptime == y.uptime && x.wmode == y.wmode && x.sequence == y.sequence && x.field2d == y.field2d
  {
    hide To4, IpField, TextField, WordField, U16;
    assert Get(x, UPTIME) == Get(y, UPTIME) && Get(x, WMODE) == Get(y, WMODE) && Get(x, SEQUENCE) == Get(y, SEQUENCE);
    assert Get(x, FIELD_2D) == Get(y, FIELD_2D);
    SameWord(x.uptime, y.uptime);
    SameWord(if x.wmode == 0 then None else Some(x.wmode), if y.wmode == 0 then None else Some(y.wmode));
    SameWord(if x.sequence == 0 then None else Some(x.sequence), if y.sequence == 0 then None else Some(y.sequence));
    SameWord(x.field2d, y.field2d);
  }

  lemma SameShortWords(x: Announcement, y: Announcement)
    requires forall kind :: Get(x, kind) == Get(y, kind)
    ensures x.boardId == y.boardId && x.isDefault == y.isDefault && x.field2c == y.field2c
  {
    hide To4, IpField, TextField, WordField;
    assert Get(x, BOARD_ID) == Get(y, BOARD_ID);
    assert Get(x, IS_DEFAULT) == Get(y, IS_DEFAULT) && Get(x, FIELD_2C) == Get(y, FIELD_2C);
    if x.boardId.Some? {
      U16RoundTrip(x.boardId.value, [0, 0]);
      U16RoundTrip(y.boardId.value, [0, 0]);
    }
    assert x.isDefault.Some? ==> Get(x, IS_DEFAULT).value[0] == (if x.isDefault.value then 1 else 0);
    assert y.isDefault.Some? ==> Get(y, IS_DEFAULT).value[0] == (if y.isDefault.value then 1 else 0);
    assert x.field2c.Some? ==> Get(x, FIELD_2C).value[0] == x.field2c.value;
    assert y.field2c.Some? ==> Get(y, FIELD_2C).value[0] == y.field2c.value;
  }

  lemma SameWord(v: Option<Word32>, w: Option<Word32>)
    ensures WordField(v) == WordField(w) <==> v == w
  {
    if v.Some? && w.Some? {
      U32RoundTrip(v.value);
      U32RoundTrip(w.value);
    }
  }

  /** A value that is written for a kind: acceptable, and not the value that is left out. */
  predicate Written(version: Byte, kind: Byte, value: seq<Byte>) {
    && Singleton(kind) && Accepts(version, kind, value)
    && (kind in {MAC, FIRMWARE, HOSTNAME, PLATFORM, ESSID, SOURCE_MAC, HARDWARE, MODEL, VERSION} ==> value != [])
    && (kind in {WMODE, SEQUENCE} ==> |value| == 4 && U32At(value) != 0)
    && (kind == NETMASK || kind == IPV4 ==> To4(value) == Some(value))
  }

  /** Taking in a record changes exactly its own field, to exactly that value. */
  lemma SetGet(a: Announcement, kind: Byte, value: seq<Byte>, other: Byte)
    requires Written(a.version, kind, value)
    ensures Get(Set(a, kind, value), other) == if other == kind then Some(value) else Get(a, other)
  {
    if other == kind {
      SetGetSame(a, kind, value);
    } else {
      SetGetOther(a, kind, value, other);
    }
  }

  lemma SetGetSame(a: Announcement, kind: Byte, value: seq<Byte>)
    requires Written(a.version, kind, value)
    ensures Get(Set(a, kind, value), kind) == Some(value)
  {
    hide ValidText, U32, U32At, U16, U16At, To4;
    if |value| == 4 {
      U32Inverse(value);
    } else if |value| == 2 {
      U16RoundTrip(0, value);
    } else if |value| == 1 {
      assert value == [value[0]];
    }
  }

  lemma SetGetOther(a: Announcement, kind: Byte, value: seq<Byte>, other: Byte)
    requires Written(a.version, kind, value) && other != kind
    ensures Get(Set(a, kind, value), other) == Get(a, other)
  {
    hide Set, Get, Written, Singleton;
    WrittenIsAccepted(a.version, kind, value);
    if kind in {MAC, FIRMWARE, IPV4, DEVICE_MAC, UPTIME, HOSTNAME, PLATFORM, ESSID, WMODE, BOARD_ID, SEQUENCE,
                SOURCE_MAC} {
      SetGetEarly(a, kind, value, other);
    } else {
      SetGetLate(a, kind, value, other);
    }
  }

  lemma SetGetEarly(a: Announcement, kind: Byte, value: seq<Byte>, other: Byte)
    requires Accepts(a.version, kind, value) && other != kind
    requires kind in {MAC, FIRMWARE, IPV4, DEVICE_MAC, UPTIME, HOSTNAME, PLATFORM, ESSID, WMODE, BOARD_ID, SEQUENCE,
                      SOURCE_MAC}
    ensures Get(Set(a, kind, value), other) == Get(a, other)
  {
    hide Accepts, U32, U32At, U16, U16At, To4, IpField, WordField, TextField;
  }

  lemma SetGetLate(a: Announcement, kind: Byte, value: seq<Byte>, other: Byte)
    requires Accepts(a.version, kind, value) && other != kind
    requires kind !in {MAC, FIRMWARE, IPV4, DEVICE_MAC, UPTIME, HOSTNAME, PLATFORM, ESSID, WMODE, BOARD_ID, SEQUENCE,
                       SOURCE_MAC}
    ensures Get(Set(a, kind, value), other) == Get(a, other)
  {
    hide Accepts, U32, U32At, U16, U16At, To4, IpField, WordField, TextField;
  }

  // ---- Parsing what was written --------------------------------------------------------------------

  /** An announcement in the making: the given kinds, and no others, have been taken in from the target. */
  ghost predicate Progress(target: Announcement, a: Announcement, seen: set<Byte>, done: set<Byte>) {
    && a.version == target.version && a.command == target.command && !a.uuidFirst && seen <= done
    && a.ipv4 == IpField(a.ipv4) && a.netmask == IpField(a.netmask)
    && forall kind :: Get(a, kind) == if kind in done then Get(target, kind) else None
  }

  /** Everything the target writes can be read back. */
  ghost predicate Writable(target: Announcement, kinds: seq<Byte>) {
    forall i :: 0 <= i < |kinds| ==>
      Singleton(kinds[i]) && (Get(target, kinds[i]).Some? ==> Written(target.version, kinds[i], Get(target, kinds[i]).value))
  }

  lemma TlvParts(kind: Byte, value: seq<Byte>, rest: seq<Byte>)
    requires |value| < 0x1_0000
    ensures var b := Tlv(kind, value) + rest;
      |b| >= 3 && b[0] == kind && U16At(b[1..3]) == |value| && b[3..3 + |value|] == value && b[3 + |value|..] == rest
  {
    var b := Tlv(kind, value) + rest;
    assert b[1..3] == U16(|value|);
  }

  lemma WrittenIsShort(version: Byte, kind: Byte, value: seq<Byte>)
    requires Written(version, kind, value)
    ensures |value| <= MAX_TEXT && kind != MAC_IP
  {
  }

  lemma FieldParses(target: Announcement, kind: Byte, a: Announcement, seen: set<Byte>, done: set<Byte>,
                    rest: seq<Byte>)
    returns (a': Announcement, seen': set<Byte>)
    requires Progress(target, a, seen, done) && kind !in done && Writable(target, [kind])
    ensures ParseRecords(a, seen, Field(target, kind) + rest) == ParseRecords(a', seen', rest)
    ensures Progress(target, a', seen', done + {kind}) && a'.addresses == a.addresses
  {
    hide Get, Set, Written, Accepts, IpField;
    assert [kind][0] == kind;
    if Get(target, kind).None? {
      assert Field(target, kind) + rest == rest;
      a', seen' := a, seen;
    } else {
      var value := Get(target, kind).value;
      WrittenIsShort(target.version, kind, value);
      WrittenIsAccepted(target.version, kind, value);
      TlvParts(kind, value, rest);
      a', seen' := Set(a, kind, value), seen + {kind};
      SetKeeps(a, kind, value);
      forall other
        ensures Get(a', other) == if other in done + {kind} then Get(target, other) else None
      {
        SetGet(a, kind, value, other);
      }
    }
  }

  lemma WrittenIsAccepted(version: Byte, kind: Byte, value: seq<Byte>)
    requires Written(version, kind, value)
    ensures Accepts(version, kind, value)
  {
  }

  lemma SetKeeps(a: Announcement, kind: Byte, value: seq<Byte>)
    requires Written(a.version, kind, value) && a.ipv4 == IpField(a.ipv4) && a.netmask == IpField(a.netmask)
    ensures var b := Set(a, kind, value);
      && b.version == a.version && b.command == a.command && b.uuidFirst == a.uuidFirst && b.addresses == a.addresses
      && b.ipv4 == IpField(b.ipv4) && b.netmask == IpField(b.netmask)
  {
    hide Written, ValidText, U32At, U16At;
    WrittenIsAccepted(a.version, kind, value);
  }

  ghost predicate Fresh(kinds: seq<Byte>, done: set<Byte>) {
    && (forall i :: 0 <= i < |kinds| ==> kinds[i] !in done)
    && (forall i, j :: 0 <= i < j < |kinds| ==> kinds[i] != kinds[j])
  }

  function KindSet(kinds: seq<Byte>): set<Byte> {
    set i | 0 <= i < |kinds| :: kinds[i]
  }

  lemma {:induction false} FieldsParse(target: Announcement, kinds: seq<Byte>, a: Announcement, seen: set<Byte>,
                                       done: set<Byte>, rest: seq<Byte>)
    returns (a': Announcement, seen': set<Byte>)
    requires Progress(target, a, seen, done) && Fresh(kinds, done) && Writable(target, kinds)
    ensures ParseRecords(a, seen, Fields(target, kinds) + rest) == ParseRecords(a', seen', rest)
    ensures Progress(target, a', seen', done + KindSet(kinds)) && a'.addresses == a.addresses
    decreases |kinds|
  {
    hide Field, Progress, ParseRecords;
    if kinds == [] {
      a', seen' := a, seen;
      assert Fields(target, kinds) + rest == rest;
      assert done + KindSet(kinds) == done;
    } else {
      var later := kinds[1..];
      assert Fields(target, kinds) + rest == Field(target, kinds[0]) + (Fields(target, later) + rest);
      var b, marks := FieldParses(target, kinds[0], a, seen, done, Fields(target, later) + rest);
      a', seen' := FieldsParse(target, later, b, marks, done + {kinds[0]}, rest);
      assert done + {kinds[0]} + KindSet(later) == done + KindSet(kinds) by {
        assert forall i :: 0 < i < |kinds| ==> kinds[i] == later[i - 1];
      }
    }
  }

  function CanonicalAddresses(addresses: seq<Address>): (r: seq<Address>)
    ensures |r| == |addresses|
  {
    seq(|addresses|, i requires 0 <= i < |addresses| => CanonicalAddress(addresses[i]))
  }

  predicate ValidAddress(address: Address) {
    |address.mac| == 6 && To4(address.ip).Some?
  }

  lemma AddressParses(address: Address, a: Announcement, seen: set<Byte>, rest: seq<Byte>)
    requires |a.addresses| < MAX_ADDRESSES && ValidAddress(address)
    ensures ParseRecords(a, seen, AddressRecord(address) + rest) ==
            ParseRecords(a.(addresses := a.addresses + [CanonicalAddress(address)]), seen, rest)
  {
    hide To4;
    var value := address.mac + To4(address.ip).value;
    TlvParts(MAC_IP, value, rest);
    assert value[..6] == address.mac && value[6..] == To4(address.ip).value;
    assert Mark(seen, MAC_IP) == seen;
  }

  lemma {:induction false} AddressesParse(addresses: seq<Address>, a: Announcement, seen: set<Byte>, rest: seq<Byte>)
    requires |a.addresses| + |addresses| <= MAX_ADDRESSES
    requires forall i :: 0 <= i < |addresses| ==> ValidAddress(addresses[i])
    ensures ParseRecords(a, seen, AddressRecords(addresses) + rest) ==
            ParseRecords(a.(addresses := a.addresses + CanonicalAddresses(addresses)), seen, rest)
    decreases |addresses|
  {
    hide AddressRecord, ParseRecords, ValidAddress, CanonicalAddress;
    if addresses == [] {
      assert AddressRecords(addresses) + rest == rest;
      assert a.addresses + CanonicalAddresses(addresses) == a.addresses;
    } else {
      var first, later := addresses[0], addresses[1..];
      assert AddressRecords(addresses) + rest == AddressRecord(first) + (AddressRecords(later) + rest);
      AddressParses(first, a, seen, AddressRecords(later) + rest);
      var next := a.(addresses := a.addresses + [CanonicalAddress(first)]);
      AddressesParse(later, next, seen, rest);
      assert a.addresses + [CanonicalAddress(first)] + CanonicalAddresses(later) == a.addresses + CanonicalAddresses(addresses);
    }
  }

  lemma IdentityIsWritable(a: Announcement, kind: Byte)
    requires ValidIdentity(a) && a.version == 2 && Singleton(kind) && Get(a, kind).Some?
    ensures Written(2, kind, Get(a, kind).value)
  {
    hide U32, U32At, ValidText, U16;
    U32RoundTrip(a.wmode);
    U32RoundTrip(a.sequence);
  }

  lemma KindsAreWritable(a: Announcement, kinds: seq<Byte>)
    requires ValidIdentity(a) && a.version == 2 && forall i :: 0 <= i < |kinds| ==> Singleton(kinds[i])
    ensures Writable(a, kinds)
  {
    forall i | 0 <= i < |kinds| && Get(a, kinds[i]).Some?
      ensures Written(2, kinds[i], Get(a, kinds[i]).value)
    {
      IdentityIsWritable(a, kinds[i]);
    }
  }

  lemma {:induction false} FieldsAppend(a: Announcement, x: seq<Byte>, y: seq<Byte>)
    ensures Fields(a, x + y) == Fields(a, x) + Fields(a, y)
    decreases |x|
  {
    if x == [] {
      assert x + y == y;
    } else {
      assert (x + y)[1..] == x[1..] + y;
      FieldsAppend(a, x[1..], y);
    }
  }

  function UuidFirst(a: Announcement): seq<Byte> {
    Only(a.uuidFirst, [CONTROLLER_UUID])
  }

  function UuidLate(a: Announcement): seq<Byte> {
    Only(!a.uuidFirst, [CONTROLLER_UUID])
  }

  /** The body of a version 2 announcement, group by group. */
  lemma BodyGroups(a: Announcement)
    requires a.version == 2
    ensures Body(a) ==
      Fields(a, [MODEL]) + (Fields(a, NAMES) + (AddressRecords(a.addresses) + (Fields(a, CORE) + (Fields(a, UuidFirst(a)) +
      (Fields(a, OPAQUE) + (Fields(a, SECOND_START) + (Fields(a, UuidLate(a)) + (Fields(a, SECOND_END) + Fields(a, [NETMASK])))))))))
  {
    hide Fields, AddressRecords;
    FieldsAppend(a, [MODEL], NAMES);
    var second := SECOND_START + UuidLate(a) + SECOND_END;
    FieldsAppend(a, CORE + UuidFirst(a) + OPAQUE + second, [NETMASK]);
    FieldsAppend(a, CORE + UuidFirst(a) + OPAQUE, second);
    FieldsAppend(a, CORE + UuidFirst(a), OPAQUE);
    FieldsAppend(a, CORE, UuidFirst(a));
    FieldsAppend(a, SECOND_START + UuidLate(a), SECOND_END);
    FieldsAppend(a, SECOND_START, UuidLate(a));
  }

  // The kinds taken in after each group.
  const AFTER_NAMES := {MODEL, PLATFORM, HARDWARE, HOSTNAME, UPTIME, IPV4}
  const AFTER_CORE := AFTER_NAMES + {MAC, DEVICE_MAC, FIRMWARE, BOARD_ID, IS_DEFAULT}
  const AFTER_OPAQUE := AFTER_CORE + {HASH_ID, ANON_ID, ESSID, WMODE}
  const AFTER_START := AFTER_OPAQUE + {SEQUENCE, SOURCE_MAC, VERSION, FIELD_2D}
  const ALL_BUT_UUID := AFTER_START + {PROFILE_UUID, FIELD_2C, NETMASK}

  lemma EarlySets()
    ensures {} + KindSet([MODEL]) == {MODEL} && {MODEL} + KindSet(NAMES) == AFTER_NAMES
    ensures AFTER_NAMES + KindSet(CORE) == AFTER_CORE
  {
    hide KindSet;
    One([MODEL]);
    Five(NAMES);
    Five(CORE);
  }

  lemma LateSets(uuid: set<Byte>)
    ensures AFTER_CORE + uuid + KindSet(OPAQUE) == AFTER_OPAQUE + uuid
    ensures AFTER_OPAQUE + uuid + KindSet(SECOND_START) == AFTER_START + uuid
    ensures AFTER_START + uuid + KindSet(SECOND_END) + KindSet([NETMASK]) == ALL_BUT_UUID + uuid
  {
    hide KindSet;
    Four(OPAQUE);
    Four(SECOND_START);
    Two(SECOND_END);
    One([NETMASK]);
  }

  lemma One(k: seq<Byte>)
    requires |k| == 1
    ensures KindSet(k) == {k[0]}
  {
  }

  lemma Two(k: seq<Byte>)
    requires |k| == 2
    ensures KindSet(k) == {k[0], k[1]}
  {
  }

  lemma Four(k: seq<Byte>)
    requires |k| == 4
    ensures KindSet(k) == {k[0], k[1], k[2], k[3]}
  {
  }

  lemma Five(k: seq<Byte>)
    requires |k| == 5
    ensures KindSet(k) == {k[0], k[1], k[2], k[3], k[4]}
  {
  }

  /** Every singleton kind is taken in exactly once, wherever the controller UUID stands. */
  lemma EarlyGroupsAreFresh()
    ensures Fresh([MODEL], {}) && Fresh(NAMES, {MODEL}) && Fresh(CORE, AFTER_NAMES)
  {
  }

  lemma LateGroupsAreFresh()
    ensures Fresh([CONTROLLER_UUID], AFTER_START) && Fresh(OPAQUE, AFTER_CORE + {CONTROLLER_UUID})
  {
  }

  lemma SecondGroupIsFresh()
    ensures Fresh(SECOND_START, AFTER_OPAQUE + {CONTROLLER_UUID})
  {
  }

  lemma LastGroupsAreFresh()
    ensures Fresh(SECOND_END + [NETMASK], AFTER_START + {CONTROLLER_UUID})
  {
    assert SECOND_END + [NETMASK] == [PROFILE_UUID, FIELD_2C, NETMASK];
  }

  lemma GroupsCover(kind: Byte)
    ensures Singleton(kind) <==> kind in ALL_BUT_UUID + {CONTROLLER_UUID}
  {
  }

  lemma FreshSubset(kinds: seq<Byte>, small: set<Byte>, large: set<Byte>)
    requires Fresh(kinds, large) && small <= large
    ensures Fresh(kinds, small)
  {
  }

  lemma StartsEmpty(a: Announcement)
    requires a.version == 2
    ensures Progress(a, Empty(2, a.command), {}, {})
  {
  }

  lemma EarlyParse(a: Announcement, rest: seq<Byte>) returns (x: Announcement, seen: set<Byte>)
    requires ValidIdentity(a) && a.version == 2
    ensures ParseRecords(Empty(2, a.command), {},
              Fields(a, [MODEL]) + (Fields(a, NAMES) + (AddressRecords(a.addresses) + (Fields(a, CORE) + rest)))) ==
            ParseRecords(x, seen, rest)
    ensures Progress(a, x, seen, AFTER_CORE) && x.addresses == CanonicalAddresses(a.addresses)
  {
    hide Fields, AddressRecords, ParseRecords, Progress, Fresh, KindSet, Writable, ValidText, Get;
    EarlySets();
    EarlyGroupsAreFresh();
    EarlyAreSingletons();
    KindsAreWritable(a, [MODEL]);
    KindsAreWritable(a, NAMES);
    KindsAreWritable(a, CORE);
    StartsEmpty(a);
    var r3 := Fields(a, CORE) + rest;
    var r2 := AddressRecords(a.addresses) + r3;
    x, seen := FieldsParse(a, [MODEL], Empty(2, a.command), {}, {}, Fields(a, NAMES) + r2);
    x, seen := FieldsParse(a, NAMES, x, seen, {MODEL}, r2);
    assert x.addresses == [];
    AddressesParse(a.addresses, x, seen, r3);
    ProgressIgnoresAddresses(a, x, seen, AFTER_NAMES, CanonicalAddresses(a.addresses));
    assert [] + CanonicalAddresses(a.addresses) == CanonicalAddresses(a.addresses);
    x, seen := FieldsParse(a, CORE, x.(addresses := CanonicalAddresses(a.addresses)), seen, AFTER_NAMES, rest);
  }

  lemma ProgressIgnoresAddresses(target: Announcement, a: Announcement, seen: set<Byte>, done: set<Byte>,
                                 addresses: seq<Address>)
    requires Progress(target, a, seen, done)
    ensures Progress(target, a.(addresses := addresses), seen, done)
  {
    var b := a.(addresses := addresses);
    forall kind
      ensures Get(b, kind) == Get(a, kind)
    {
    }
  }

  lemma EarlyAreSingletons()
    ensures Singleton(MODEL)
    ensures forall i :: 0 <= i < 5 ==> Singleton(NAMES[i]) && Singleton(CORE[i])
  {
  }

  lemma LateAreSingletons()
    ensures Singleton(CONTROLLER_UUID) && Singleton(NETMASK)
    ensures forall i :: 0 <= i < 4 ==> Singleton(OPAQUE[i]) && Singleton(SECOND_START[i])
    ensures forall i :: 0 <= i < 2 ==> Singleton(SECOND_END[i])
  {
  }

  lemma UuidParse(a: Announcement, present: bool, x: Announcement, seen: set<Byte>, done: set<Byte>, rest: seq<Byte>)
    returns (x': Announcement, seen': set<Byte>)
    requires ValidIdentity(a) && a.version == 2 && Progress(a, x, seen, done) && (present ==> CONTROLLER_UUID !in done)
    ensures ParseRecords(x, seen, Fields(a, Only(present, [CONTROLLER_UUID])) + rest) == ParseRecords(x', seen', rest)
    ensures Progress(a, x', seen', if present then done + {CONTROLLER_UUID} else done) && x'.addresses == x.addresses
  {
    hide ParseRecords, Progress, KindSet, Writable, ValidText, Get;
    LateAreSingletons();
    if present {
      One([CONTROLLER_UUID]);
      KindsAreWritable(a, [CONTROLLER_UUID]);
      x', seen' := FieldsParse(a, [CONTROLLER_UUID], x, seen, done, rest);
    } else {
      assert Fields(a, []) + rest == rest;
      x', seen' := x, seen;
    }
  }

  lemma LateParse(a: Announcement, x0: Announcement, seen0: set<Byte>) returns (x: Announcement)
    requires ValidIdentity(a) && a.version == 2 && Progress(a, x0, seen0, AFTER_CORE)
    ensures ParseRecords(x0, seen0, Fields(a, UuidFirst(a)) + (Fields(a, OPAQUE) + (Fields(a, SECOND_START) +
              (Fields(a, UuidLate(a)) + (Fields(a, SECOND_END) + Fields(a, [NETMASK])))))) == Some(x)
    ensures (exists seen :: Progress(a, x, seen, ALL_BUT_UUID + {CONTROLLER_UUID})) && x.addresses == x0.addresses
  {
    hide Fields, ParseRecords, Progress, Fresh, KindSet, Writable, ValidText, Get;
    var uuid := if a.uuidFirst then {CONTROLLER_UUID} else {};
    LateSets(uuid);
    LateSets({CONTROLLER_UUID});
    LateGroupsAreFresh();
    SecondGroupIsFresh();
    FreshSubset(OPAQUE, AFTER_CORE + uuid, AFTER_CORE + {CONTROLLER_UUID});
    FreshSubset(SECOND_START, AFTER_OPAQUE + uuid, AFTER_OPAQUE + {CONTROLLER_UUID});
    LateAreSingletons();
    KindsAreWritable(a, OPAQUE);
    KindsAreWritable(a, SECOND_START);
    var r5 := Fields(a, SECOND_END) + Fields(a, [NETMASK]);
    var r4 := Fields(a, UuidLate(a)) + r5;
    var r3 := Fields(a, SECOND_START) + r4;
    UuidIsNew();
    var y, seen := UuidParse(a, a.uuidFirst, x0, seen0, AFTER_CORE, Fields(a, OPAQUE) + r3);
    assert AFTER_CORE + {} == AFTER_CORE;
    y, seen := FieldsParse(a, OPAQUE, y, seen, AFTER_CORE + uuid, r3);
    y, seen := FieldsParse(a, SECOND_START, y, seen, AFTER_OPAQUE + uuid, r4);
    y, seen := UuidParse(a, !a.uuidFirst, y, seen, AFTER_START + uuid, r5);
    assert AFTER_START + {} + {CONTROLLER_UUID} == AFTER_START + {CONTROLLER_UUID};
    x := EndParse(a, y, seen);
  }

  lemma UuidIsNew()
    ensures CONTROLLER_UUID !in AFTER_CORE && CONTROLLER_UUID !in AFTER_START
  {
  }

  lemma EndParse(a: Announcement, y: Announcement, seen0: set<Byte>) returns (x: Announcement)
    requires ValidIdentity(a) && a.version == 2 && Progress(a, y, seen0, AFTER_START + {CONTROLLER_UUID})
    ensures ParseRecords(y, seen0, Fields(a, SECOND_END) + Fields(a, [NETMASK])) == Some(x)
    ensures (exists seen :: Progress(a, x, seen, ALL_BUT_UUID + {CONTROLLER_UUID})) && x.addresses == y.addresses
  {
    hide Fields, Progress, Fresh, KindSet, Writable, ValidText, Get;
    var kinds := SECOND_END + [NETMASK];
    LateSets({CONTROLLER_UUID});
    LastGroupsAreFresh();
    LateAreSingletons();
    KindsAreWritable(a, kinds);
    FieldsAppend(a, SECOND_END, [NETMASK]);
    KindSetAppend(SECOND_END, [NETMASK]);
    assert Fields(a, kinds) + [] == Fields(a, kinds);
    var seen;
    x, seen := FieldsParse(a, kinds, y, seen0, AFTER_START + {CONTROLLER_UUID}, []);
    assert AFTER_START + {CONTROLLER_UUID} + KindSet(kinds) ==
           AFTER_START + {CONTROLLER_UUID} + KindSet(SECOND_END) + KindSet([NETMASK]);
  }

  lemma KindSetAppend(x: seq<Byte>, y: seq<Byte>)
    ensures KindSet(x + y) == KindSet(x) + KindSet(y)
  {
    assert forall i :: 0 <= i < |y| ==> y[i] == (x + y)[|x| + i];
    assert forall i :: 0 <= i < |x| ==> x[i] == (x + y)[i];
  }

  /** An announcement that took in everything from its target is the target's canonical form. */
  lemma CompleteIsCanonical(a: Announcement, x: Announcement, seen: set<Byte>)
    requires ValidIdentity(a) && Progress(a, x, seen, ALL_BUT_UUID + {CONTROLLER_UUID})
    requires x.addresses == CanonicalAddresses(a.addresses)
    ensures x == Canonical(a)
  {
    hide ValidText, Singleton;
    var c := Canonical(a);
    forall kind
      ensures Get(x, kind) == Get(c, kind)
    {
      GroupsCover(kind);
      CanonicalKeeps(a, kind);
    }
    SameRecords(x, c);
  }

  lemma CanonicalKeeps(a: Announcement, kind: Byte)
    requires ValidIdentity(a)
    ensures Get(Canonical(a), kind) == Get(a, kind)
    ensures !Singleton(kind) ==> Get(a, kind) == None
  {
    hide ValidText;
  }

  // ---- Size ----------------------------------------------------------------------------------------

  const MAX_PACKET := 7551

  function Bound(kind: Byte): nat {
    if kind in {FIRMWARE, HOSTNAME, PLATFORM, ESSID, HARDWARE, MODEL, VERSION} then 3 + MAX_TEXT
    else if kind in {MAC, DEVICE_MAC, SOURCE_MAC} then 9
    else if kind in {IPV4, UPTIME, WMODE, SEQUENCE, FIELD_2D, NETMASK} then 7
    else if kind == BOARD_ID then 5
    else if kind in {IS_DEFAULT, FIELD_2C} then 4
    else if kind == HASH_ID then 11
    else 19
  }

  lemma FieldBound(a: Announcement, kind: Byte)
    requires ValidIdentity(a) && a.version == 2
    ensures |Field(a, kind)| <= Bound(kind)
  {
    hide ValidMac;
    MacsAreSix(a);
  }

  lemma MacsAreSix(a: Announcement)
    requires ValidIdentity(a) && a.version == 2
    ensures |a.mac| == 6 && |a.sourceMac| == 6 && (a.deviceMac.Some? ==> |a.deviceMac.value| == 6)
  {
  }

  function Sum(kinds: seq<Byte>): nat {
    if kinds == [] then 0 else Bound(kinds[0]) + Sum(kinds[1..])
  }

  lemma {:induction false} FieldsBound(a: Announcement, kinds: seq<Byte>)
    requires ValidIdentity(a) && a.version == 2
    ensures |Fields(a, kinds)| <= Sum(kinds)
  {
    if kinds != [] {
      FieldBound(a, kinds[0]);
      FieldsBound(a, kinds[1..]);
    }
  }

  lemma {:induction false} AddressesBound(addresses: seq<Address>)
    requires forall i :: 0 <= i < |addresses| ==> ValidAddress(addresses[i])
    ensures |AddressRecords(addresses)| == 13 * |addresses|
  {
    if addresses != [] {
      AddressesBound(addresses[1..]);
    }
  }

  lemma GroupSums()
    ensures Sum([MODEL]) == 1027 && Sum(NAMES) == 3095 && Sum(CORE) == 1054 && Sum(OPAQUE) == 1064
    ensures Sum(SECOND_START) == 1050 && Sum(SECOND_END) == 23 && Sum([NETMASK]) == 7 && Sum([CONTROLLER_UUID]) == 19
  {
    SumFive(NAMES);
    SumFive(CORE);
    SumFour(OPAQUE);
    SumFour(SECOND_START);
    SumTwo(SECOND_END);
  }

  lemma SumTwo(k: seq<Byte>)
    requires |k| == 2
    ensures Sum(k) == Bound(k[0]) + Bound(k[1])
  {
    assert Sum(k[1..]) == Bound(k[1]) + Sum(k[1..][1..]);
  }

  lemma SumFour(k: seq<Byte>)
    requires |k| == 4
    ensures Sum(k) == Bound(k[0]) + Bound(k[1]) + Bound(k[2]) + Bound(k[3])
  {
    assert k[1..][1..] == k[2..];
    SumTwo(k[2..]);
  }

  lemma SumFive(k: seq<Byte>)
    requires |k| == 5
    ensures Sum(k) == Bound(k[0]) + Bound(k[1]) + Bound(k[2]) + Bound(k[3]) + Bound(k[4])
  {
    SumFour(k[1..]);
  }

  lemma BodyBound(a: Announcement)
    requires ValidIdentity(a) && a.version == 2
    ensures |Body(a)| + 4 <= MAX_PACKET
  {
    hide Fields, AddressRecords, Sum, ValidText, Body;
    BodyGroups(a);
    GroupSums();
    FieldsBound(a, [MODEL]);
    FieldsBound(a, NAMES);
    FieldsBound(a, CORE);
    FieldsBound(a, OPAQUE);
    FieldsBound(a, SECOND_START);
    FieldsBound(a, SECOND_END);
    FieldsBound(a, [NETMASK]);
    FieldsBound(a, [CONTROLLER_UUID]);
    NoFields(a);
    AddressesBound(a.addresses);
  }

  lemma NoFields(a: Announcement)
    ensures Fields(a, []) == []
  {
  }

  /** Every valid version 2 announcement marshals - the datagram limit cannot be hit - and parsing the bytes gives it
      back, up to the four-byte form of its addresses and the wire-ordering flag. */
  lemma MarshalRoundTrip(a: Announcement)
    requires ValidIdentity(a) && a.version == 2
    ensures Marshal(a).Some? && |Marshal(a).value| <= MAX_PACKET && Parse(Marshal(a).value) == Some(Canonical(a))
  {
    hide Fields, AddressRecords, ParseRecords, Progress, ValidText, Get, Body, ValidMac;
    BodyBound(a);
    BodyGroups(a);
    var packet := Marshal(a).value;
    U16RoundTrip(|Body(a)|, [0, 0]);
    assert packet[2..4] == U16(|Body(a)|) && packet[4..] == Body(a);
    var x0, seen0 := EarlyParse(a, Fields(a, UuidFirst(a)) + (Fields(a, OPAQUE) + (Fields(a, SECOND_START) +
      (Fields(a, UuidLate(a)) + (Fields(a, SECOND_END) + Fields(a, [NETMASK]))))));
    var x := LateParse(a, x0, seen0);
    var seen :| Progress(a, x, seen, ALL_BUT_UUID + {CONTROLLER_UUID});
    CompleteIsCanonical(a, x, seen);
  }

  /** What the parser produces is already canonical. */
  ghost predicate IsCanonical(a: Announcement) {
    && !a.uuidFirst && (a.ipv4.Some? ==> |a.ipv4.value| == 4) && (a.netmask.Some? ==> |a.netmask.value| == 4)
    && forall i :: 0 <= i < |a.addresses| ==> |a.addresses[i].ip| == 4
  }

  lemma TakeKeepsCanonical(a: Announcement, seen: set<Byte>, kind: Byte, value: seq<Byte>)
    requires IsCanonical(a) && Take(a, seen, kind, value).Some?
    ensures IsCanonical(Take(a, seen, kind, value).value)
  {
    hide ValidText, Singleton, U32At, U16At;
  }

  lemma {:induction false} ParsedIsCanonical(a: Announcement, seen: set<Byte>, body: seq<Byte>)
    requires IsCanonical(a) && ParseRecords(a, seen, body).Some?
    ensures IsCanonical(ParseRecords(a, seen, body).value)
    decreases |body|
  {
    hide IsCanonical, Take;
    if body != [] {
      var size := U16At(body[1..3]);
      TakeKeepsCanonical(a, seen, body[0], body[3..3 + size]);
      ParsedIsCanonical(Take(a, seen, body[0], body[3..3 + size]).value, Mark(seen, body[0]), body[3 + size..]);
    }
  }

  /** Writing what was parsed and parsing it again changes nothing, whatever order and unknown records the original
      packet had. */
  lemma ParsedMarshalsBack(packet: seq<Byte>)
    requires Parse(packet).Some? && ValidIdentity(Parse(packet).value) && Parse(packet).value.version == 2
    ensures Marshal(Parse(packet).value).Some? && Parse(Marshal(Parse(packet).value).value) == Parse(packet)
  {
    hide ParseRecords, ValidIdentity, Body;
    var a := Parse(packet).value;
    ParsedIsCanonical(Empty(packet[0], packet[1]), {}, packet[4..]);
    MarshalRoundTrip(a);
    CanonicalIsSame(a);
  }

  lemma CanonicalIsSame(a: Announcement)
    requires IsCanonical(a)
    ensures Canonical(a) == a
  {
    assert CanonicalAddresses(a.addresses) == a.addresses;
  }

  // ---- The writer as it is written -----------------------------------------------------------------

  method AppendTlv(dst: seq<Byte>, kind: Byte, value: seq<Byte>) returns (r: seq<Byte>)
    requires |value| < 0x1_0000
    ensures r == dst + Tlv(kind, value)
  {
    r := dst + [kind, |value| / 256, |value| % 256];
    r := r + value;
  }

  /** One more group member: what was appended is its record, or nothing when it is left out. */
  lemma NextField(a: Announcement, start: seq<Byte>, done: seq<Byte>, kind: Byte, body: seq<Byte>)
    requires body == start + Fields(a, done) + Field(a, kind)
    ensures body == start + Fields(a, done + [kind])
  {
    hide Field;
    FieldsAppend(a, done, [kind]);
    assert [kind][1..] == [];
    assert Fields(a, [kind]) == Field(a, kind) + Fields(a, []);
  }

  method AppendNames(a: Announcement, start: seq<Byte>) returns (body: seq<Byte>)
    requires ValidIdentity(a)
    ensures body == start + Fields(a, NAMES)
  {
    hide Fields, ValidMac, ValidText, U32, Tlv;
    ShortTexts(a);
    NoFields(a);
    body := start;
    if a.platform != [] {
      body := AppendTlv(body, PLATFORM, a.platform);
    }
    NextField(a, start, [], PLATFORM, body);
    if a.hardware != [] {
      body := AppendTlv(body, HARDWARE, a.hardware);
    }
    NextField(a, start, [] + [PLATFORM], HARDWARE, body);
    if a.hostname != [] {
      body := AppendTlv(body, HOSTNAME, a.hostname);
    }
    NextField(a, start, [] + [PLATFORM] + [HARDWARE], HOSTNAME, body);
    if a.uptime.Some? {
      body := AppendTlv(body, UPTIME, U32(a.uptime.value));
    }
    NextField(a, start, [] + [PLATFORM] + [HARDWARE] + [HOSTNAME], UPTIME, body);
    if a.ipv4.Some? {
      body := AppendTlv(body, IPV4, To4(a.ipv4.value).value);
    }
    NextField(a, start, [] + [PLATFORM] + [HARDWARE] + [HOSTNAME] + [UPTIME], IPV4, body);
    assert [] + [PLATFORM] + [HARDWARE] + [HOSTNAME] + [UPTIME] + [IPV4] == NAMES;
  }

  method AppendCore(a: Announcement, start: seq<Byte>) returns (body: seq<Byte>)
    requires ValidIdentity(a)
    ensures body == start + Fields(a, CORE)
  {
    hide Fields, ValidMac, ValidText, U16, Tlv;
    ShortTexts(a);
    NoFields(a);
    body := AppendTlv(start, MAC, a.mac);
    NextField(a, start, [], MAC, body);
    if a.deviceMac.Some? {
      body := AppendTlv(body, DEVICE_MAC, a.deviceMac.value);
    }
    NextField(a, start, [] + [MAC], DEVICE_MAC, body);
    if a.firmware != [] {
      body := AppendTlv(body, FIRMWARE, a.firmware);
    }
    NextField(a, start, [] + [MAC] + [DEVICE_MAC], FIRMWARE, body);
    if a.boardId.Some? {
      body := AppendTlv(body, BOARD_ID, U16(a.boardId.value));
    }
    NextField(a, start, [] + [MAC] + [DEVICE_MAC] + [FIRMWARE], BOARD_ID, body);
    if a.isDefault.Some? {
      var value: Byte := 0;
      if a.isDefault.value {
        value := 1;
      }
      body := AppendTlv(body, IS_DEFAULT, [value]);
    }
    NextField(a, start, [] + [MAC] + [DEVICE_MAC] + [FIRMWARE] + [BOARD_ID], IS_DEFAULT, body);
    assert [] + [MAC] + [DEVICE_MAC] + [FIRMWARE] + [BOARD_ID] + [IS_DEFAULT] == CORE;
  }

  method AppendUuid(a: Announcement, present: bool, start: seq<Byte>) returns (body: seq<Byte>)
    ensures body == start + Fields(a, Only(present, [CONTROLLER_UUID]))
  {
    hide Fields, Tlv;
    NoFields(a);
    body := start;
    if present && a.controllerUuid.Some? {
      body := AppendTlv(body, CONTROLLER_UUID, a.controllerUuid.value);
    }
    if present {
      NextField(a, start, [], CONTROLLER_UUID, body);
      assert [] + [CONTROLLER_UUID] == [CONTROLLER_UUID];
    }
  }

  method AppendOpaque(a: Announcement, start: seq<Byte>) returns (body: seq<Byte>)
    requires ValidIdentity(a)
    ensures body == start + Fields(a, OPAQUE)
  {
    hide Fields, ValidMac, ValidText, U32, Tlv;
    ShortTexts(a);
    NoFields(a);
    body := start;
    if a.hashId.Some? {
      body := AppendTlv(body, HASH_ID, a.hashId.value);
    }
    NextField(a, start, [], HASH_ID, body);
    if a.anonId.Some? {
      body := AppendTlv(body, ANON_ID, a.anonId.value);
    }
    NextField(a, start, [] + [HASH_ID], ANON_ID, body);
    if a.essid != [] {
      body := AppendTlv(body, ESSID, a.essid);
    }
    NextField(a, start, [] + [HASH_ID] + [ANON_ID], ESSID, body);
    if a.wmode != 0 {
      body := AppendTlv(body, WMODE, U32(a.wmode));
    }
    NextField(a, start, [] + [HASH_ID] + [ANON_ID] + [ESSID], WMODE, body);
    assert [] + [HASH_ID] + [ANON_ID] + [ESSID] + [WMODE] == OPAQUE;
  }

  method AppendSecondStart(a: Announcement, start: seq<Byte>) returns (body: seq<Byte>)
    requires ValidIdentity(a) && a.version == 2
    ensures body == start + Fields(a, SECOND_START)
  {
    hide Fields, ValidMac, ValidText, U32, Tlv;
    ShortTexts(a);
    NoFields(a);
    body := AppendTlv(start, SEQUENCE, U32(a.sequence));
    NextField(a, start, [], SEQUENCE, body);
    body := AppendTlv(body, SOURCE_MAC, a.sourceMac);
    NextField(a, start, [] + [SEQUENCE], SOURCE_MAC, body);
    if a.versionText != [] {
      body := AppendTlv(body, VERSION, a.versionText);
    }
    NextField(a, start, [] + [SEQUENCE] + [SOURCE_MAC], VERSION, body);
    if a.field2d.Some? {
      body := AppendTlv(body, FIELD_2D, U32(a.field2d.value));
    }
    NextField(a, start, [] + [SEQUENCE] + [SOURCE_MAC] + [VERSION], FIELD_2D, body);
    assert [] + [SEQUENCE] + [SOURCE_MAC] + [VERSION] + [FIELD_2D] == SECOND_START;
  }

  method AppendSecondEnd(a: Announcement, start: seq<Byte>) returns (body: seq<Byte>)
    ensures body == start + Fields(a, SECOND_END)
  {
    hide Fields, Tlv;
    NoFields(a);
    body := start;
    if a.profileUuid.Some? {
      body := AppendTlv(body, PROFILE_UUID, a.profileUuid.value);
    }
    NextField(a, start, [], PROFILE_UUID, body);
    if a.field2c.Some? {
      body := AppendTlv(body, FIELD_2C, [a.field2c.value]);
    }
    NextField(a, start, [] + [PROFILE_UUID], FIELD_2C, body);
    assert [] + [PROFILE_UUID] + [FIELD_2C] == SECOND_END;
  }

  method AppendAddresses(addresses: seq<Address>, start: seq<Byte>) returns (body: seq<Byte>)
    requires forall i :: 0 <= i < |addresses| ==> ValidAddress(addresses[i])
    ensures body == start + AddressRecords(addresses)
  {
    hide Tlv, To4;
    body := start;
    for i := 0 to |addresses|
      invariant body + AddressRecords(addresses[i..]) == start + AddressRecords(addresses)
    {
      assert addresses[i..][0] == addresses[i] && addresses[i..][1..] == addresses[i + 1..];
      var value := addresses[i].mac + To4(addresses[i].ip).value;
      ghost var before := body;
      body := AppendTlv(body, MAC_IP, value);
      assert before + (Tlv(MAC_IP, value) + AddressRecords(addresses[i + 1..])) == body + AddressRecords(addresses[i + 1..]);
    }
  }

  lemma IdentityAddresses(a: Announcement)
    requires ValidIdentity(a)
    ensures forall i :: 0 <= i < |a.addresses| ==> ValidAddress(a.addresses[i])
    ensures a.ipv4.Some? ==> To4(a.ipv4.value).Some?
    ensures a.netmask.Some? ==> To4(a.netmask.value).Some?
  {
  }

  method MarshalPacket(a: Announcement) returns (r: Option<seq<Byte>>)
    ensures r == Marshal(a)
  {
    hide ValidMac, ValidText, To4, MatchesPrimary, Body;
    if !ValidIdentity(a) {
      return None;
    }
    var body := AppendBody(a);
    if |body| > 0xffff || |body| + 4 > MAX_DATAGRAM {
      return None;
    }
    return Some([a.version, a.command] + U16(|body|) + body);
  }

  method AppendBody(a: Announcement) returns (body: seq<Byte>)
    requires ValidIdentity(a)
    ensures body == Body(a)
  {
    hide Fields, AddressRecords, LaterKinds, ValidIdentity, To4, Tlv, Only;
    IdentityAddresses(a);
    body := AppendModel(a);
    body := AppendNames(a, body);
    FieldsAppend(a, Only(a.version == 2, [MODEL]), NAMES);
    body := AppendAddresses(a.addresses, body);
    ghost var head := body;
    body := AppendCore(a, body);
    body := AppendUuid(a, a.uuidFirst, body);
    body := AppendOpaque(a, body);
    body := AppendSecond(a, body);
    if a.netmask.Some? {
      body := AppendTlv(body, NETMASK, To4(a.netmask.value).value);
    }
    LaterFields(a);
    assert body == head + Fields(a, LaterKinds(a));
  }

  method AppendModel(a: Announcement) returns (body: seq<Byte>)
    requires ValidIdentity(a)
    ensures body == Fields(a, Only(a.version == 2, [MODEL]))
  {
    hide Fields, ValidText;
    ShortTexts(a);
    NoFields(a);
    body := [];
    if a.version == 2 {
      if a.model != [] {
        body := AppendTlv(body, MODEL, a.model);
      }
      NextField(a, [], [], MODEL, body);
      assert [] + [MODEL] == [MODEL];
    }
  }

  method AppendSecond(a: Announcement, start: seq<Byte>) returns (body: seq<Byte>)
    requires ValidIdentity(a)
    ensures body == start + Fields(a, SecondKinds(a))
  {
    hide Fields, ValidMac, ValidText;
    NoFields(a);
    body := start;
    if a.version == 2 {
      body := AppendSecondStart(a, body);
      body := AppendUuid(a, !a.uuidFirst, body);
      body := AppendSecondEnd(a, body);
      FieldsAppend(a, SECOND_START + UuidLate(a), SECOND_END);
      FieldsAppend(a, SECOND_START, UuidLate(a));
    }
  }

  function SecondKinds(a: Announcement): seq<Byte> {
    Only(a.version == 2, SECOND_START + UuidLate(a) + SECOND_END)
  }

  lemma LaterFields(a: Announcement)
    ensures Fields(a, LaterKinds(a)) ==
            Fields(a, CORE) + Fields(a, UuidFirst(a)) + Fields(a, OPAQUE) + Fields(a, SecondKinds(a)) + Field(a, NETMASK)
  {
    hide Fields, Field;
    FieldsAppend(a, CORE + UuidFirst(a) + OPAQUE + SecondKinds(a), [NETMASK]);
    FieldsAppend(a, CORE + UuidFirst(a) + OPAQUE, SecondKinds(a));
    FieldsAppend(a, CORE + UuidFirst(a), OPAQUE);
    FieldsAppend(a, CORE, UuidFirst(a));
    NoFields(a);
    NextField(a, [], [], NETMASK, Field(a, NETMASK));
    assert [] + [NETMASK] == [NETMASK];
  }

  lemma ShortTexts(a: Announcement)
    requires ValidIdentity(a)
    ensures |a.firmware| <= MAX_TEXT && |a.hostname| <= MAX_TEXT && |a.platform| <= MAX_TEXT && |a.hardware| <= MAX_TEXT
    ensures |a.essid| <= MAX_TEXT && |a.model| <= MAX_TEXT && |a.versionText| <= MAX_TEXT
    ensures |a.mac| == 6 && (a.deviceMac.Some? ==> |a.deviceMac.value| == 6) && (a.version == 2 ==> |a.sourceMac| == 6)
  {
  }
}
