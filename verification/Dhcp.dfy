/** DHCP messages: the client's requests and the parser of server replies (RFC 2131, options of RFC 2132). */
module Dhcp {
  import opened Basics
  import opened NetConfig

  datatype Lease = Lease(address: Option<Ip>, prefix: int, router: Option<Ip>, server: Option<Ip>,
                         duration: int, renew: int, rebind: int)
  {
    predicate SameNet(other: Lease) {
      address == other.address && prefix == other.prefix && router == other.router
    }
  }

  const NO_LEASE := Lease(None, 0, None, None, 0, 0, 0)

  const DISCOVER := 1
  const OFFER := 2
  const REQUEST := 3
  const DECLINE := 4
  const ACK := 5
  const NAK := 6

  const COOKIE: seq<Byte> := [99, 130, 83, 99]

  type Xid = x: seq<Byte> | |x| == 4 witness [0, 0, 0, 0]
  type Mac = m: seq<Byte> | |m| == 6 witness [0, 0, 0, 0, 0, 0]

  function Zeros(n: nat): (z: seq<Byte>)
    ensures |z| == n
  {
    seq(n, _ => 0)
  }

  // ---- Options -------------------------------------------------------------------------------------

  /** The option map of a message from index i on; None when it is malformed, repeats a code or never ends. */
  function Options(p: seq<Byte>, i: nat, opts: map<Byte, seq<Byte>>): Option<map<Byte, seq<Byte>>>
    requires i <= |p|
    decreases |p| - i
  {
    if i == |p| then None
    else if p[i] == 255 then Some(opts)
    else if p[i] == 0 then Options(p, i + 1, opts)
    else if i + 1 >= |p| || p[i + 1] > |p| - (i + 2) || p[i] in opts then None
    else Options(p, i + 2 + p[i + 1], opts[p[i] := p[i + 2..i + 2 + p[i + 1]]])
  }

  datatype Opt = Opt(code: Byte, value: seq<Byte>)

  predicate Encodable(opts: seq<Opt>) {
    && (forall i :: 0 <= i < |opts| ==> opts[i].code != 0 && opts[i].code != 255 && |opts[i].value| < 256)
    && (forall i, j :: 0 <= i < j < |opts| ==> opts[i].code != opts[j].code)
  }

  function Encode(opts: seq<Opt>): seq<Byte>
    requires Encodable(opts)
  {
    if opts == [] then []
    else [opts[0].code, |opts[0].value|] + opts[0].value + Encode(opts[1..])
  }

  function AsMap(opts: seq<Opt>): (m: map<Byte, seq<Byte>>)
    requires Encodable(opts)
    ensures forall i :: 0 <= i < |opts| ==> opts[i].code in m && m[opts[i].code] == opts[i].value
    ensures forall c :: c in m ==> exists i :: 0 <= i < |opts| && opts[i].code == c
  {
    map i | 0 <= i < |opts| :: opts[i].code := opts[i].value
  }

  /** One option in front of the rest of a message. */
  lemma OptionStep(head: seq<Byte>, o: Opt, rest: seq<Byte>, seen: map<Byte, seq<Byte>>)
    requires o.code != 0 && o.code != 255 && |o.value| < 256 && o.code !in seen
    ensures var next := head + ([o.code, |o.value|] + o.value);
      Options(next + rest, |head|, seen) == Options(next + rest, |next|, seen[o.code := o.value])
  {
    var next := head + ([o.code, |o.value|] + o.value);
    var p := next + rest;
    assert p[|head|] == o.code && p[|head| + 1] == |o.value| && p[|head| + 2..|next|] == o.value;
  }

  /** Reading back written options gives exactly those options, whatever precedes them and follows their end. */
  lemma {:induction false} OptionsRoundTrip(head: seq<Byte>, opts: seq<Opt>, tail: seq<Byte>, seen: map<Byte,
                                            seq<Byte>>)
    requires Encodable(opts) && forall i :: 0 <= i < |opts| ==> opts[i].code !in seen
    ensures Options(head + Encode(opts) + [255] + tail, |head|, seen) == Some(seen + AsMap(opts))
    decreases |opts|
  {
    hide AsMap, Options;
    var p := head + Encode(opts) + [255] + tail;
    if opts == [] {
      OptionsEnd(head, tail, seen);
    } else {
      var o := opts[0];
      var next := head + ([o.code, |o.value|] + o.value);
      var rest := Encode(opts[1..]) + [255] + tail;
      assert p == next + rest;
      OptionStep(head, o, rest, seen);
      assert next + rest == next + Encode(opts[1..]) + [255] + tail;
      OptionsRoundTrip(next, opts[1..], tail, seen[o.code := o.value]);
      AsMapStep(opts, seen);
    }
  }

  lemma OptionsEnd(head: seq<Byte>, tail: seq<Byte>, seen: map<Byte, seq<Byte>>)
    ensures Options(head + Encode([]) + [255] + tail, |head|, seen) == Some(seen + AsMap([]))
  {
    var p := head + Encode([]) + [255] + tail;
    assert p[|head|] == 255;
    assert AsMap([]) == map[];
    assert seen + map[] == seen;
  }

  lemma AsMapStep(opts: seq<Opt>, seen: map<Byte, seq<Byte>>)
    requires opts != [] && Encodable(opts)
    ensures seen[opts[0].code := opts[0].value] + AsMap(opts[1..]) == seen + AsMap(opts)
  {
    var rest := opts[1..];
    assert forall i :: 0 <= i < |rest| ==> rest[i] == opts[i + 1];
    assert AsMap(opts).Keys == {opts[0].code} + AsMap(rest).Keys;
  }

  // ---- Client messages -----------------------------------------------------------------------------

  function IpOption(code: Byte, ip: Option<Ip>): seq<Opt> {
    if ip.Some? then [Opt(code, U32(ip.value))] else []
  }

  /** Message type, client identifier, requested address, server, parameter list and maximum size. */
  function ClientOptions(kind: Byte, mac: Mac, requested: Option<Ip>, server: Option<Ip>): (opts: seq<Opt>)
    ensures Encodable(opts)
  {
    [Opt(53, [kind]), Opt(61, [1] + mac)] + IpOption(50, requested) + IpOption(54, server) +
    [Opt(55, [1, 3, 51, 58, 59]), Opt(57, [5, 220])]
  }

  /** The 240 fixed bytes of a request: broadcast flag set exactly while the client has no address. */
  function ClientHeader(xid: Xid, mac: Mac, current: Option<Ip>): (h: seq<Byte>)
    ensures |h| == 240
  {
    [1, 1, 6, 0] + xid + [0, 0, if current.None? then 0x80 else 0, 0] +
    (if current.Some? then U32(current.value) else Zeros(4)) + Zeros(12) + mac + Zeros(202) + COOKIE
  }

  function Packet(kind: Byte, xid: Xid, mac: Mac, requested: Option<Ip>, server: Option<Ip>,
                  current: Option<Ip>): seq<Byte> {
    var body := ClientHeader(xid, mac, current) + Encode(ClientOptions(kind, mac, requested, server)) + [255];
    body + Zeros(if |body| < 300 then 300 - |body| else 0)
  }

  /** The option parser reads back exactly the options that the client writes. */
  lemma PacketOptions(kind: Byte, xid: Xid, mac: Mac, requested: Option<Ip>, server: Option<Ip>, current: Option<Ip>)
    ensures var p := Packet(kind, xid, mac, requested, server, current);
      |p| >= 300 && Options(p, 240, map[]) == Some(AsMap(ClientOptions(kind, mac, requested, server)))
  {
    hide ClientHeader, ClientOptions, Encode, AsMap;
    var head, opts := ClientHeader(xid, mac, current), ClientOptions(kind, mac, requested, server);
    var body := head + Encode(opts) + [255];
    var pad := Zeros(if |body| < 300 then 300 - |body| else 0);
    OptionsRoundTrip(head, opts, pad, map[]);
    assert map[] + AsMap(opts) == AsMap(opts);
  }

  method BuildPacket(kind: Byte, xid: Xid, mac: Mac, requested: Option<Ip>, server: Option<Ip>, current: Option<Ip>)
    returns (p: seq<Byte>)
    ensures p == Packet(kind, xid, mac, requested, server, current)
  {
    var header := new Byte[240](_ => 0);
    FillHeader(header, xid, mac, current);
    p := AppendOptions(header[..], kind, mac, requested, server);
    p := Pad(p);
  }

  method AppendOptions(header: seq<Byte>, kind: Byte, mac: Mac, requested: Option<Ip>, server: Option<Ip>)
    returns (p: seq<Byte>)
    ensures p == header + Encode(ClientOptions(kind, mac, requested, server)) + [255]
  {
    hide Encode, ClientOptions, U32;
    EncodedClient(kind, mac, requested, server);
    ghost var o := [53, 1, kind, 61, 7, 1];
    p := header + [53, 1, kind, 61, 7, 1];
    p := p + mac;
    Joined(header, o, mac);
    o := o + mac;
    if requested.Some? {
      var option := [50, 4] + U32(requested.value);
      p := p + option;
      Joined(header, o, option);
      o := o + option;
    } else {
      assert o + [] == o;
    }
    if server.Some? {
      var option := [54, 4] + U32(server.value);
      p := p + option;
      Joined(header, o, option);
      o := o + option;
    } else {
      assert o + [] == o;
    }
    ghost var last := [55, 5, 1, 3, 51, 58, 59, 57, 2, 5, 220];
    Joined(header, o, last);
    assert [55, 5, 1, 3, 51, 58, 59, 57, 2, 5, 220, 255] == last + [255];
    Joined(p, last, [255]);
    p := p + [55, 5, 1, 3, 51, 58, 59, 57, 2, 5, 220, 255];
  }

  lemma Joined(a: seq<Byte>, b: seq<Byte>, c: seq<Byte>)
    ensures a + b + c == a + (b + c)
  {
  }

  method Pad(body: seq<Byte>) returns (p: seq<Byte>)
    ensures p == body + Zeros(if |body| < 300 then 300 - |body| else 0)
  {
    p := body;
    while |p| < 300
      invariant |p| >= |body| && (|p| <= 300 || |p| == |body|)
      invariant p == body + Zeros(|p| - |body|)
    {
      NextZero(|p| - |body|);
      p := p + [0];
    }
  }

  lemma NextZero(n: nat)
    ensures Zeros(n + 1) == Zeros(n) + [0]
  {
  }

  /** The client's options written out. */
  lemma EncodedClient(kind: Byte, mac: Mac, requested: Option<Ip>, server: Option<Ip>)
    ensures Encode(ClientOptions(kind, mac, requested, server)) ==
      [53, 1, kind, 61, 7, 1] + mac +
      (if requested.Some? then [50, 4] + U32(requested.value) else []) +
      (if server.Some? then [54, 4] + U32(server.value) else []) +
      [55, 5, 1, 3, 51, 58, 59, 57, 2, 5, 220]
  {
    hide Encode, IpOption, ClientOptions, U32;
    var first, last := [Opt(53, [kind]), Opt(61, [1] + mac)], [Opt(55, [1, 3, 51, 58, 59]), Opt(57, [5, 220])];
    var a, b := IpOption(50, requested), IpOption(54, server);
    ClientParts(kind, mac, requested, server);
    EncodeFour(first, a, b, last);
    EncodeEnds(kind, mac);
    EncodeIp(50, requested);
    EncodeIp(54, server);
  }

  lemma ClientParts(kind: Byte, mac: Mac, requested: Option<Ip>, server: Option<Ip>)
    ensures ClientOptions(kind, mac, requested, server) ==
            [Opt(53, [kind]), Opt(61, [1] + mac)] + IpOption(50, requested) + IpOption(54, server) +
            [Opt(55, [1, 3, 51, 58, 59]), Opt(57, [5, 220])]
  {
  }

  lemma EncodeFour(a: seq<Opt>, b: seq<Opt>, c: seq<Opt>, d: seq<Opt>)
    requires Encodable(a + b + c + d)
    ensures Encodable(a) && Encodable(b) && Encodable(c) && Encodable(d)
    ensures Encode(a + b + c + d) == Encode(a) + Encode(b) + Encode(c) + Encode(d)
  {
    hide Encode;
    EncodeAppend(a + b + c, d);
    EncodeAppend(a + b, c);
    EncodeAppend(a, b);
  }

  lemma EncodeEnds(kind: Byte, mac: Mac)
    requires Encodable([Opt(53, [kind]), Opt(61, [1] + mac)])
    requires Encodable([Opt(55, [1, 3, 51, 58, 59]), Opt(57, [5, 220])])
    ensures Encode([Opt(53, [kind]), Opt(61, [1] + mac)]) == [53, 1, kind, 61, 7, 1] + mac
    ensures Encode([Opt(55, [1, 3, 51, 58, 59]), Opt(57, [5, 220])]) == [55, 5, 1, 3, 51, 58, 59, 57, 2, 5, 220]
  {
    hide Encode;
    EncodeTwo(Opt(53, [kind]), Opt(61, [1] + mac));
    EncodeTwo(Opt(55, [1, 3, 51, 58, 59]), Opt(57, [5, 220]));
    assert [53, 1] + [kind] + [61, 7] + ([1] + mac) == [53, 1, kind, 61, 7, 1] + mac;
    assert [55, 5] + [1, 3, 51, 58, 59] + [57, 2] + [5, 220] == [55, 5, 1, 3, 51, 58, 59, 57, 2, 5, 220];
  }

  lemma {:induction false} EncodeAppend(a: seq<Opt>, b: seq<Opt>)
    requires Encodable(a + b)
    ensures Encodable(a) && Encodable(b) && Encode(a + b) == Encode(a) + Encode(b)
  {
    EncodableParts(a, b);
    if a == [] {
      assert a + b == b;
    } else {
      assert (a + b)[1..] == a[1..] + b;
      EncodeAppend(a[1..], b);
    }
  }

  lemma EncodableParts(a: seq<Opt>, b: seq<Opt>)
    requires Encodable(a + b)
    ensures Encodable(a) && Encodable(b)
  {
    var all := a + b;
    assert forall i :: 0 <= i < |b| ==> b[i] == all[|a| + i];
    assert forall i :: 0 <= i < |a| ==> a[i] == all[i];
  }

  lemma EncodeOne(x: Opt)
    requires Encodable([x])
    ensures Encode([x]) == [x.code, |x.value|] + x.value
  {
    assert [x][1..] == [];
  }

  lemma EncodeTwo(x: Opt, y: Opt)
    requires Encodable([x, y])
    ensures Encode([x, y]) == [x.code, |x.value|] + x.value + [y.code, |y.value|] + y.value
  {
    assert [x, y] == [x] + [y];
    EncodeAppend([x], [y]);
    EncodeOne(x);
    EncodeOne(y);
  }

  lemma EncodeIp(code: Byte, ip: Option<Ip>)
    requires Encodable(IpOption(code, ip))
    ensures Encode(IpOption(code, ip)) == if ip.Some? then [code, 4] + U32(ip.value) else []
  {
    if ip.Some? {
      EncodeOne(Opt(code, U32(ip.value)));
    }
  }

  lemma HeaderFromParts(p: seq<Byte>, xid: Xid, mac: Mac, current: Option<Ip>)
    requires |p| == 240 && p[0] == 1 && p[1] == 1 && p[2] == 6
    requires forall i :: 4 <= i < 8 ==> p[i] == xid[i - 4]
    requires p[10] == if current.None? then 0x80 else 0
    requires current.Some? ==> forall i :: 12 <= i < 16 ==> p[i] == U32(current.value)[i - 12]
    requires forall i :: 28 <= i < 34 ==> p[i] == mac[i - 28]
    requires forall i :: 236 <= i < 240 ==> p[i] == COOKIE[i - 236]
    requires p[3] == p[8] == p[9] == p[11] == 0
    requires forall i :: (12 <= i < 16 && current.None?) || 16 <= i < 28 || 34 <= i < 236 ==> p[i] == 0
    ensures p == ClientHeader(xid, mac, current)
  {
    hide U32;
    assert p[12..16] == if current.Some? then U32(current.value) else Zeros(4);
    assert p[16..28] == Zeros(12) && p[34..236] == Zeros(202);
    assert p == p[..4] + p[4..8] + p[8..12] + p[12..16] + p[16..28] + p[28..34] + p[34..236] + p[236..];
  }

  method FillHeader(p: array<Byte>, xid: Xid, mac: Mac, current: Option<Ip>)
    requires p.Length == 240 && forall i :: 0 <= i < 240 ==> p[i] == 0
    modifies p
    ensures p[..] == ClientHeader(xid, mac, current)
  {
    hide ClientHeader, U32;
    p[0], p[1], p[2] := 1, 1, 6;
    CopyInto(p, 4, xid);
    CopyInto(p, 28, mac);
    if current.None? {
      p[10] := 0x80;
    } else {
      CopyInto(p, 12, U32(current.value));
    }
    CopyInto(p, 236, COOKIE);
    HeaderFromParts(p[..], xid, mac, current);
  }

  // ---- Server replies ------------------------------------------------------------------------------

  const MIN_SECONDS := 30
  const MAX_SECONDS := 604800

  /** The 32-bit number whose first k bits are ones. */
  function Mask(k: nat): (m: Ip)
    requires k <= 32
  {
    MaskBound(k);
    0x1_0000_0000 - Pow2(32 - k)
  }

  lemma MaskBound(k: nat)
    requires k <= 32
    ensures 1 <= Pow2(32 - k) <= 0x1_0000_0000
    decreases k
  {
    if k == 0 {
      Pow2Of32();
    } else {
      MaskBound(k - 1);
    }
  }

  lemma {:induction false} MasksDiffer(j: nat, k: nat)
    requires j < k <= 32
    ensures Mask(j) < Mask(k)
    decreases k
  {
    if j < k - 1 {
      MasksDiffer(j, k - 1);
    }
  }

  lemma {:induction false} MaskSizeFinds(j: nat, k: nat)
    requires j <= k <= 32
    ensures MaskSize(Mask(k), j) == Some(k)
    decreases 32 - j
  {
    if j < k {
      MasksDiffer(j, k);
      MaskSizeFinds(j + 1, k);
    }
  }

  /** The length of a contiguous mask, searched from k on. */
  function MaskSize(m: Ip, k: nat): (r: Option<int>)
    requires k <= 32
    ensures r.Some? ==> k <= r.value <= 32 && Mask(r.value) == m
    decreases 32 - k
  {
    if m == Mask(k) then Some(k) else if k == 32 then None else MaskSize(m, k + 1)
  }

  function Value(opts: map<Byte, seq<Byte>>, code: Byte): seq<Byte> {
    if code in opts then opts[code] else []
  }

  /** A timer option replaces the default when present; None when it has the wrong size. */
  function Timer(opts: map<Byte, seq<Byte>>, code: Byte, default: int): Option<int> {
    if code !in opts then Some(default)
    else if |opts[code]| != 4 then None
    else Some(U32At(opts[code]) * SECOND)
  }

  function IpAt(b: seq<Byte>): (ip: Ip)
    requires |b| == 4
  {
    U32At(b)
  }

  /** The fixed fields that make a message a reply to this client's transaction. */
  predicate ForClient(p: seq<Byte>, xid: Xid, mac: Mac) {
    && 241 <= |p| <= 1500 && p[0] == 2 && p[1] == 1 && p[2] == 6
    && p[4..8] == xid && p[28..34] == mac && p[236..240] == COOKIE
  }

  /** The lease of an offer or acknowledgement, or None. */
  function LeaseOf(p: seq<Byte>, opts: map<Byte, seq<Byte>>, server: Ip): Option<Lease>
    requires |p| >= 241
  {
    if |Value(opts, 1)| != 4 || |Value(opts, 3)| != 4 || |Value(opts, 51)| != 4 then None
    else
      var address, router, bits := IpAt(p[16..20]), IpAt(opts[3]), MaskSize(IpAt(opts[1]), 0);
      var seconds := U32At(opts[51]);
      if bits.None? || !ValidAddress(Some(address), bits.value, Some(router)) then None
      else if seconds < MIN_SECONDS || seconds > MAX_SECONDS then None
      else
        var duration := seconds * SECOND;
        var renew, rebind := Timer(opts, 58, duration / 2), Timer(opts, 59, duration * 7 / 8);
        if renew.None? || rebind.None? || renew.value <= 0 || renew.value >= rebind.value || rebind.value >= duration then None
        else Some(Lease(Some(address), bits.value, Some(router), Some(server), duration, renew.value, rebind.value))
  }

  predicate Acceptable(opts: map<Byte, seq<Byte>>, mac: Mac) {
    && |Value(opts, 53)| == 1 && |Value(opts, 54)| == 4
    && 52 !in opts && 121 !in opts && 249 !in opts
    && (61 in opts ==> opts[61] == [1] + mac)
    && Usable(IpAt(opts[54]))
  }

  /** The kind of a server message and the lease it carries; a refusal carries only its server. */
  function Reply(p: seq<Byte>, xid: Xid, mac: Mac): Option<(int, Lease)> {
    if !ForClient(p, xid, mac) then None
    else match Options(p, 240, map[])
      case None => None
      case Some(opts) =>
        if !Acceptable(opts, mac) then None
        else
          var kind, server := Value(opts, 53)[0], IpAt(Value(opts, 54));
          if kind == NAK then Some((NAK, NO_LEASE.(server := Some(server))))
          else if kind != OFFER && kind != ACK then None
          else match LeaseOf(p, opts, server)
            case None => None
            case Some(lease) => Some((kind, lease))
  }

  method ParseReply(p: seq<Byte>, xid: Xid, mac: Mac) returns (r: Option<(int, Lease)>)
    ensures r == Reply(p, xid, mac)
  {
    hide LeaseOf;
    if !ForClient(p, xid, mac) {
      return None;
    }
    var opts: map<Byte, seq<Byte>> := map[];
    var ended, i := false, 240;
    while i < |p| && !ended
      invariant 240 <= i <= |p|
      invariant if ended then Options(p, 240, map[]) == Some(opts) else Options(p, i, opts) == Options(p, 240, map[])
      decreases |p| - i, !ended
    {
      var code := p[i];
      if code == 255 {
        ended := true;
      } else if code == 0 {
        i := i + 1;
      } else {
        i := i + 1;
        if i >= |p| {
          return None;
        }
        var size := p[i];
        i := i + 1;
        if size > |p| - i || code in opts {
          return None;
        }
        opts := opts[code := p[i..i + size]];
        i := i + size;
      }
    }
    if !ended || !Acceptable(opts, mac) {
      return None;
    }
    var kind, server := Value(opts, 53)[0], IpAt(Value(opts, 54));
    if kind == NAK {
      return Some((NAK, NO_LEASE.(server := Some(server))));
    }
    if kind != OFFER && kind != ACK {
      return None;
    }
    var lease := LeaseOf(p, opts, server);
    return if lease.None? then None else Some((kind, lease.value));
  }

  /** What the client may rely on in a lease: an acceptable network from a usable server, a bounded duration, and
      timers in the order of section 4.4.5 of RFC 2131. */
  ghost predicate SoundLease(l: Lease) {
    && ValidAddress(l.address, l.prefix, l.router) && l.server.Some? && Usable(l.server.value)
    && MIN_SECONDS * SECOND <= l.duration <= MAX_SECONDS * SECOND && 0 < l.renew < l.rebind < l.duration
  }

  lemma ReplyIsSound(p: seq<Byte>, xid: Xid, mac: Mac)
    requires Reply(p, xid, mac).Some?
    ensures var (kind, l) := Reply(p, xid, mac).value;
      && ForClient(p, xid, mac) && kind in {OFFER, ACK, NAK}
      && (kind == NAK ==> l.address == None)
      && (kind != NAK ==> SoundLease(l) && l.address == Some(IpAt(p[16..20])))
  {
    hide MaskSize, ValidAddress, Usable;
  }

  // ---- Replies of a server that follows the standard -----------------------------------------------

  function SecondsOption(code: Byte, duration: int, present: bool): seq<Opt>
    requires 0 <= duration < 0x1_0000_0000 * SECOND
  {
    if present then [Opt(code, U32(duration / SECOND))] else []
  }

  function ServerOptions(kind: Byte, l: Lease, timers: bool): (opts: seq<Opt>)
    requires SoundLease(l)
    ensures Encodable(opts)
  {
    [Opt(53, [kind]), Opt(54, U32(l.server.value)), Opt(1, U32(Mask(l.prefix))), Opt(3, U32(l.router.value)),
     Opt(51, U32(l.duration / SECOND))] + SecondsOption(58, l.renew, timers) + SecondsOption(59, l.rebind, timers)
  }

  function ServerHeader(xid: Xid, mac: Mac, address: Ip): (h: seq<Byte>)
    ensures |h| == 240
  {
    [2, 1, 6, 0] + xid + Zeros(8) + U32(address) + Zeros(8) + mac + Zeros(202) + COOKIE
  }

  function ServerReply(kind: Byte, xid: Xid, mac: Mac, l: Lease, timers: bool): seq<Byte>
    requires SoundLease(l)
  {
    ServerHeader(xid, mac, l.address.value) + Encode(ServerOptions(kind, l, timers)) + [255]
  }

  /** The options that a server's message carries. */
  predicate ServerMap(m: map<Byte, seq<Byte>>, kind: Byte, l: Lease, timers: bool)
    requires SoundLease(l)
  {
    && Value(m, 53) == [kind] && Value(m, 54) == U32(l.server.value) && Value(m, 1) == U32(Mask(l.prefix))
    && Value(m, 3) == U32(l.router.value) && Value(m, 51) == U32(l.duration / SECOND)
    && 1 in m && 3 in m && 51 in m && 53 in m && 54 in m
    && (58 in m <==> timers) && (59 in m <==> timers)
    && (timers ==> m[58] == U32(l.renew / SECOND) && m[59] == U32(l.rebind / SECOND))
    && 52 !in m && 121 !in m && 249 !in m && 61 !in m
  }

  lemma OptionsAre(kind: Byte, l: Lease, timers: bool)
    requires SoundLease(l)
    ensures var opts := ServerOptions(kind, l, timers);
      && |opts| == (if timers then 7 else 5) && opts[0] == Opt(53, [kind]) && opts[1] == Opt(54, U32(l.server.value))
      && opts[2] == Opt(1, U32(Mask(l.prefix))) && opts[3] == Opt(3, U32(l.router.value)) && opts[4] == Opt(51, U32(l.duration / SECOND))
      && (timers ==> opts[5] == Opt(58, U32(l.renew / SECOND)) && opts[6] == Opt(59, U32(l.rebind / SECOND)))
  {
    hide U32, Mask, ValidAddress, Usable;
  }

  lemma ServerValues(kind: Byte, l: Lease, timers: bool)
    requires SoundLease(l)
    ensures ServerMap(AsMap(ServerOptions(kind, l, timers)), kind, l, timers)
  {
    hide U32, Mask, SoundLease, AsMap, ServerOptions;
    var opts := ServerOptions(kind, l, timers);
    var m := AsMap(opts);
    OptionsAre(kind, l, timers);
    assert opts[0].code in m && opts[1].code in m && opts[2].code in m && opts[3].code in m && opts[4].code in m;
    if timers {
      assert opts[5].code in m && opts[6].code in m;
    }
    forall c | c in m
      ensures c in {1, 3, 51, 53, 54, 58, 59} && (!timers ==> c != 58 && c != 59)
    {
      var i :| 0 <= i < |opts| && opts[i].code == c;
    }
  }

  lemma ServerHeaderFields(xid: Xid, mac: Mac, address: Ip, rest: seq<Byte>)
    requires 1 <= |rest| <= 1260
    ensures var p := ServerHeader(xid, mac, address) + rest; ForClient(p, xid, mac) && IpAt(p[16..20]) == address
  {
    hide Zeros;
    var head := ServerHeader(xid, mac, address);
    var p := head + rest;
    assert p[4..8] == head[4..8] == xid;
    assert p[28..34] == head[28..34] == mac;
    assert p[236..240] == head[236..240] == COOKIE;
    assert p[16..20] == head[16..20] == U32(address);
    U32RoundTrip(address);
  }

  lemma ServerLease(p: seq<Byte>, m: map<Byte, seq<Byte>>, kind: Byte, l: Lease, timers: bool)
    requires SoundLease(l) && l.duration % SECOND == 0 && |p| >= 241 && IpAt(p[16..20]) == l.address.value
    requires if timers then l.renew % SECOND == 0 && l.rebind % SECOND == 0
             else l.renew == l.duration / 2 && l.rebind == l.duration * 7 / 8
    requires ServerMap(m, kind, l, timers)
    ensures LeaseOf(p, m, l.server.value) == Some(l)
  {
    hide U32, U32At, Mask, MaskSize, ValidAddress, Usable;
    PrefixInRange(l);
    U32RoundTrip(Mask(l.prefix));
    U32RoundTrip(l.router.value);
    U32RoundTrip(l.duration / SECOND);
    MaskSizeFinds(0, l.prefix);
    WholeSeconds(l.duration);
    if timers {
      U32RoundTrip(l.renew / SECOND);
      U32RoundTrip(l.rebind / SECOND);
      WholeSeconds(l.renew);
      WholeSeconds(l.rebind);
    }
  }

  lemma PrefixInRange(l: Lease)
    requires ValidAddress(l.address, l.prefix, l.router)
    ensures 1 <= l.prefix <= 30 && l.address.Some? && l.router.Some?
  {
  }

  lemma WholeSeconds(t: int)
    requires t % SECOND == 0
    ensures t / SECOND * SECOND == t
  {
  }

  lemma {:induction false} EncodedSize(opts: seq<Opt>)
    requires Encodable(opts) && forall i :: 0 <= i < |opts| ==> |opts[i].value| <= 4
    ensures |Encode(opts)| <= 6 * |opts|
  {
    if opts != [] {
      EncodedSize(opts[1..]);
    }
  }

  lemma ServerSize(kind: Byte, l: Lease, timers: bool)
    requires SoundLease(l)
    ensures |Encode(ServerOptions(kind, l, timers))| <= 42
  {
    EncodedSize(ServerOptions(kind, l, timers));
  }

  /** Every sound lease whose times are whole seconds, written as a server writes it - with explicit timers, or
      without them when they have their default values - is read back exactly, for offers and acknowledgements. */
  lemma ReplyRoundTrip(kind: Byte, xid: Xid, mac: Mac, l: Lease, timers: bool)
    requires kind == OFFER || kind == ACK
    requires SoundLease(l) && l.duration % SECOND == 0
    requires if timers then l.renew % SECOND == 0 && l.rebind % SECOND == 0
             else l.renew == l.duration / 2 && l.rebind == l.duration * 7 / 8
    ensures Reply(ServerReply(kind, xid, mac, l, timers), xid, mac) == Some((kind, l))
  {
    hide Encode, ServerOptions, ServerHeader, Options, AsMap, LeaseOf, ForClient, Mask, ValidAddress, Usable;
    PrefixInRange(l);
    var head, opts := ServerHeader(xid, mac, l.address.value), ServerOptions(kind, l, timers);
    var p, rest := ServerReply(kind, xid, mac, l, timers), Encode(opts) + [255];
    OptionsRoundTrip(head, opts, [], map[]);
    assert p == head + Encode(opts) + [255] + [] == head + rest;
    assert map[] + AsMap(opts) == AsMap(opts);
    ServerSize(kind, l, timers);
    ServerHeaderFields(xid, mac, l.address.value, rest);
    ServerValues(kind, l, timers);
    ServerLease(p, AsMap(opts), kind, l, timers);
    U32RoundTrip(l.server.value);
  }
}
