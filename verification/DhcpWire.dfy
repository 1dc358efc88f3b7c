/** The agent's packets byte by byte, with the numbers of RFC 791, RFC 768, RFC 2131 and RFC 2132: what the client sends,
    which server messages it accepts, and how they are read. */
module DhcpWire {
  import opened Basics
  import opened NetConfig
  import opened Ipv4
  import opened Dhcp

  // ---- What is sent ------------------------------------------------------------------------------------

  /** The number that two bytes spell, most significant first. */
  function Big(hi: int, lo: int): int {
    hi * 256 + lo
  }

  /** Four bytes spell a number, most significant first. */
  predicate Spells(b: seq<Byte>, v: int) {
    |b| == 4 && (b[0] as int) * 0x100_0000 + (b[1] as int) * 0x1_0000 + (b[2] as int) * 256 + (b[3] as int) == v
  }

  lemma U32Spells(v: int)
    requires 0 <= v < 0x1_0000_0000
    ensures Spells(U32(v), v)
  {
    U32RoundTrip(v);
  }

  /** A packet of at least 28 bytes in front of a message: IPv4 without options, time to live 64, UDP. */
  lemma EnvelopeExactly(source: Ip, destination: Ip, from: int, to: int, message: seq<Byte>)
    requires 0 <= from < 0x1_0000 && 0 <= to < 0x1_0000 && |message| <= 65507
    ensures var p := Envelope(source, destination, from, to, message);
      && |p| == 28 + |message| && p[28..] == message
      && p[0] == 0x45 && p[1] == 0 && Big(p[2], p[3]) == |p| && p[4] == p[5] == p[6] == p[7] == 0 && p[8] == 64 && p[9] == 17
      && Spells(p[12..16], source) && Spells(p[16..20], destination)
      && Big(p[20], p[21]) == from && Big(p[22], p[23]) == to && Big(p[24], p[25]) == 8 + |message| && p[26] == p[27] == 0
      && ChecksumOf(p[..20]) == 0
  {
    hide ChecksumOf, U32, Spells;
    var p := Envelope(source, destination, from, to, message);
    var header, udp := Header(source, destination, |message|), UdpHeader(from, to, |message|);
    assert p[..20] == header && p[20..28] == udp && p[28..] == message;
    LowIsIdentity(|message|);
    HeaderVerifies(source, destination, |message|);
    HeaderExactly(source, destination, |message|);
    assert p[12..16] == header[12..16] && p[16..20] == header[16..20];
    WordsOf(from, to, 8 + |message|);
  }

  lemma HeaderExactly(source: Ip, destination: Ip, size: nat)
    requires size <= 65507
    ensures var h := Header(source, destination, size);
      && h[0] == 0x45 && h[1] == 0 && Big(h[2], h[3]) == 28 + size && h[4] == h[5] == h[6] == h[7] == 0 && h[8] == 64 && h[9] == 17
      && Spells(h[12..16], source) && Spells(h[16..20], destination)
  {
    hide ChecksumOf, Spells;
    LowIsIdentity(size);
    U32Spells(source);
    U32Spells(destination);
    var h := Header(source, destination, size);
    assert h[12..16] == U32(source) && h[16..20] == U32(destination);
  }

  lemma WordsOf(a: int, b: int, c: int)
    requires 0 <= a < 0x1_0000 && 0 <= b < 0x1_0000 && 0 <= c < 0x1_0000
    ensures Big(U16(a)[0], U16(a)[1]) == a && Big(U16(b)[0], U16(b)[1]) == b && Big(U16(c)[0], U16(c)[1]) == c
  {
  }

  /** A client message: a request of the hardware type Ethernet with the transaction, the client's address or the broadcast
      flag, its MAC, the magic cookie, and as options the kind of message, the client identifier, the address and the
      server if there are any, the five parameters asked for, and a maximum size of 1500. */
  lemma MessageExactly(kind: Byte, xid: Xid, mac: Mac, requested: Option<Ip>, server: Option<Ip>, current: Option<Ip>)
    ensures var p := Packet(kind, xid, mac, requested, server, current);
      && |p| >= 300 && p[0] == 1 && p[1] == 1 && p[2] == 6 && p[3] == 0 && p[4..8] == xid && p[8] == p[9] == p[11] == 0
      && p[10] == (if current.None? then 128 else 0)
      && Spells(p[12..16], if current.Some? then current.value else 0)
      && p[28..34] == mac && p[236] == 99 && p[237] == 130 && p[238] == 83 && p[239] == 99
      && (forall i :: 16 <= i < 28 || 34 <= i < 236 ==> p[i] == 0)
    ensures var opts := Options(Packet(kind, xid, mac, requested, server, current), 240, map[]);
      && opts.Some?
      && (forall c :: c in opts.value <==>
            c in {53, 61, 55, 57} || (c == 50 && requested.Some?) || (c == 54 && server.Some?))
      && opts.value[53] == [kind] && opts.value[61] == [1] + mac && opts.value[55] == [1, 3, 51, 58, 59]
      && opts.value[57] == [5, 220]
      && (requested.Some? ==> Spells(opts.value[50], requested.value))
      && (server.Some? ==> Spells(opts.value[54], server.value))
  {
    hide Packet, AsMap, ClientOptions, Spells;
    PacketOptions(kind, xid, mac, requested, server, current);
    ClientMap(kind, mac, requested, server);
    PacketStarts(kind, xid, mac, requested, server, current);
    HeaderBytes(xid, mac, current);
    var p, h := Packet(kind, xid, mac, requested, server, current), ClientHeader(xid, mac, current);
    assert p[..240] == h;
    assert p[4..8] == h[4..8] && p[12..16] == h[12..16] && p[28..34] == h[28..34];
  }

  lemma PacketStarts(kind: Byte, xid: Xid, mac: Mac, requested: Option<Ip>, server: Option<Ip>, current: Option<Ip>)
    ensures var p := Packet(kind, xid, mac, requested, server, current); |p| >= 300 && p[..240] == ClientHeader(xid, mac, current)
  {
    hide ClientHeader, ClientOptions, Encode;
  }

  lemma HeaderBytes(xid: Xid, mac: Mac, current: Option<Ip>)
    ensures var h := ClientHeader(xid, mac, current);
      && h[0] == 1 && h[1] == 1 && h[2] == 6 && h[3] == 0 && h[4..8] == xid && h[8] == h[9] == h[11] == 0
      && h[10] == (if current.None? then 128 else 0)
      && Spells(h[12..16], if current.Some? then current.value else 0)
      && h[28..34] == mac && h[236] == 99 && h[237] == 130 && h[238] == 83 && h[239] == 99
      && (forall i :: 16 <= i < 28 || 34 <= i < 236 ==> h[i] == 0)
  {
    hide Spells, U32;
    var h := ClientHeader(xid, mac, current);
    var ip := if current.Some? then current.value else 0;
    U32Spells(ip);
    ZeroIs();
    assert h[12..16] == U32(ip);
  }

  lemma ZeroIs()
    ensures Zeros(4) == U32(0)
  {
  }

  lemma ClientMap(kind: Byte, mac: Mac, requested: Option<Ip>, server: Option<Ip>)
    ensures var m := AsMap(ClientOptions(kind, mac, requested, server));
      && (forall c :: c in m <==> c in {53, 61, 55, 57} || (c == 50 && requested.Some?) || (c == 54 && server.Some?))
      && m[53] == [kind] && m[61] == [1] + mac && m[55] == [1, 3, 51, 58, 59] && m[57] == [5, 220]
      && (requested.Some? ==> Spells(m[50], requested.value)) && (server.Some? ==> Spells(m[54], server.value))
  {
    hide Spells, U32, AsMap;
    if requested.Some? {
      U32Spells(requested.value);
    }
    if server.Some? {
      U32Spells(server.value);
    }
    var opts := ClientOptions(kind, mac, requested, server);
    var m := AsMap(opts);
    var n := |opts|;
    assert opts[0] == Opt(53, [kind]) && opts[1] == Opt(61, [1] + mac);
    assert opts[n - 2] == Opt(55, [1, 3, 51, 58, 59]) && opts[n - 1] == Opt(57, [5, 220]);
    assert opts[0].code in m && opts[1].code in m && opts[n - 2].code in m && opts[n - 1].code in m;
    if requested.Some? {
      assert opts[2] == Opt(50, U32(requested.value)) && opts[2].code in m;
    }
    if server.Some? {
      assert opts[n - 3] == Opt(54, U32(server.value)) && opts[n - 3].code in m;
    }
    forall c | c in m
      ensures c in {53, 61, 55, 57} || (c == 50 && requested.Some?) || (c == 54 && server.Some?)
    {
      var i :| 0 <= i < |opts| && opts[i].code == c;
    }
  }

  // ---- What is accepted ------------------------------------------------------------------------------

  /** A global unicast address: not in 0/8 or 127/8, not multicast or above, not link-local. */
  predicate PublicHost(ip: Ip) {
    0x100_0000 <= ip < 0xE000_0000 && !(0x7F00_0000 <= ip < 0x8000_0000) && !(0xA9FE_0000 <= ip < 0xA9FF_0000)
  }

  /** Two hosts of one network, neither of them its first or last address. */
  ghost predicate Network(a: Ip, bits: int, r: Ip) {
    && 1 <= bits <= 30 && PublicHost(a) && PublicHost(r) && a != r
    && OneNetwork(Pow2(32 - bits), a, r)
  }

  ghost predicate OneNetwork(size: nat, a: Ip, r: Ip) {
    exists k :: HostsOf(k, size, a, r)
  }

  lemma NetworkExactly(a: Ip, bits: int, r: Ip)
    ensures ValidAddress(Some(a), bits, Some(r)) <==> Network(a, bits, r)
    ensures Network(a, bits, r) ==> 1 <= bits <= 30
  {
    hide HostPair, HostsOf, Usable, PublicHost;
    HostExactly(a);
    HostExactly(r);
    ValidAddressIsHostPair(a, bits, r);
  }

  lemma HostExactly(ip: Ip)
    ensures Usable(ip) <==> PublicHost(ip)
  {
  }

  /** A time in seconds, if the option is there, or else a default in nanoseconds. */
  ghost predicate TimeIs(opts: map<Byte, seq<Byte>>, code: Byte, default: int, time: int) {
    if code in opts then exists seconds :: Spells(opts[code], seconds) && time == seconds * 1_000_000_000 else time == default
  }

  /** The address, router, mask and times of an offer or acknowledgement. The lease lasts between half a minute and a week. */
  ghost predicate LeaseIs(p: seq<Byte>, opts: map<Byte, seq<Byte>>, l: Lease)
    requires |p| >= 241
  {
    && l.address.Some? && Spells(p[16..20], l.address.value)
    && l.router.Some? && 3 in opts && Spells(opts[3], l.router.value)
    && Network(l.address.value, l.prefix, l.router.value) && 1 in opts && Spells(opts[1], 0x1_0000_0000 - Pow2(32 - l.prefix))
    && (exists seconds :: 51 in opts && Spells(opts[51], seconds) && 30 <= seconds <= 604800 && l.duration == seconds * 1_000_000_000)
    && TimeIs(opts, 58, l.duration / 2, l.renew) && TimeIs(opts, 59, l.duration * 7 / 8, l.rebind)
    && 0 < l.renew < l.rebind < l.duration
  }

  /** Only whole IPv4 datagrams from UDP port 67 to port 68 with a correct header checksum get through, and what is taken
      from them is what follows the UDP header up to the total length. */
  lemma PayloadExactly(p: seq<Byte>)
    requires DhcpPayload(p).Some?
    ensures |p| >= 28 && 0x45 <= p[0] <= 0x4F && p[9] == 17 && Big(p[6], p[7]) % 0x4000 == 0
    ensures var h, total := (p[0] as int - 0x40) * 4, Big(p[2], p[3]);
      && h + 8 <= total <= |p| && ChecksumOf(p[..h]) == 0
      && Big(p[h], p[h + 1]) == 67 && Big(p[h + 2], p[h + 3]) == 68 && Big(p[h + 4], p[h + 5]) == total - h
      && DhcpPayload(p) == Some(p[h + 8..total])
  {
    hide ChecksumOf;
    var h: nat, total := p[0] as int % 16 * 4, U16At(p[2..4]);
    var u := p[h..total];
    assert u[..2] == [p[h], p[h + 1]] && u[2..4] == [p[h + 2], p[h + 3]] && u[4..6] == [p[h + 4], p[h + 5]];
    assert u[8..] == p[h + 8..total];
  }

  /** A server message to this client: the fixed fields of a reply, well-formed options of which none is overloaded, a
      usable server, and either a refusal, which carries nothing else, or a lease that is offered or acknowledged. */
  ghost predicate Says(p: seq<Byte>, xid: Xid, mac: Mac, kind: int, l: Lease) {
    && 241 <= |p| <= 1500 && p[0] == 2 && p[1] == 1 && p[2] == 6 && p[4..8] == xid && p[28..34] == mac
    && p[236] == 99 && p[237] == 130 && p[238] == 83 && p[239] == 99
    && Options(p, 240, map[]).Some?
    && var opts := Options(p, 240, map[]).value;
    && 53 in opts && |opts[53]| == 1 && opts[53][0] == kind
    && l.server.Some? && 54 in opts && Spells(opts[54], l.server.value) && PublicHost(l.server.value)
    && 52 !in opts && 121 !in opts && 249 !in opts && (61 in opts ==> opts[61] == [1] + mac)
    && if kind == 6 then l == Lease(None, 0, None, l.server, 0, 0, 0) else (kind == 2 || kind == 5) && LeaseIs(p, opts, l)
  }

  lemma SpellsIs(b: seq<Byte>)
    ensures forall v :: Spells(b, v) <==> |b| == 4 && U32At(b) == v
  {
  }

  lemma FixedFields(p: seq<Byte>, xid: Xid, mac: Mac)
    ensures ForClient(p, xid, mac) <==>
      && 241 <= |p| <= 1500 && p[0] == 2 && p[1] == 1 && p[2] == 6 && p[4..8] == xid && p[28..34] == mac
      && p[236] == 99 && p[237] == 130 && p[238] == 83 && p[239] == 99
  {
    if |p| >= 241 {
      var c := p[236..240];
      assert c == COOKIE <==> c[0] == 99 && c[1] == 130 && c[2] == 83 && c[3] == 99;
    }
  }

  lemma TimerExactly(opts: map<Byte, seq<Byte>>, code: Byte, default: int, time: int)
    ensures TimeIs(opts, code, default, time) <==> Timer(opts, code, default) == Some(time)
  {
    hide Spells;
    if code in opts {
      SpellsIs(opts[code]);
      if |opts[code]| == 4 {
        assert Spells(opts[code], U32At(opts[code]));
      }
    }
  }

  lemma MaskExactly(m: Ip, k: nat)
    requires k <= 32
    ensures MaskSize(m, 0) == Some(k) <==> m == 0x1_0000_0000 - Pow2(32 - k)
  {
    if m == Mask(k) {
      MaskSizeFinds(0, k);
    }
  }

  lemma LeaseExactly(p: seq<Byte>, opts: map<Byte, seq<Byte>>, server: Ip, l: Lease)
    requires |p| >= 241
    ensures LeaseOf(p, opts, server) == Some(l) <==> LeaseIs(p, opts, l) && l.server == Some(server)
  {
    hide Spells, Network, ValidAddress, MaskSize, TimeIs, Timer, Pow2;
    SpellsIs(p[16..20]);
    SpellsIs(Value(opts, 1));
    SpellsIs(Value(opts, 3));
    SpellsIs(Value(opts, 51));
    TimerExactly(opts, 58, l.duration / 2, l.renew);
    TimerExactly(opts, 59, l.duration * 7 / 8, l.rebind);
    if |Value(opts, 51)| == 4 {
      assert Spells(opts[51], U32At(opts[51]));
    }
    if l.address.Some? && l.router.Some? {
      NetworkExactly(l.address.value, l.prefix, l.router.value);
    }
    if |Value(opts, 1)| == 4 && 0 <= l.prefix <= 32 {
      MaskExactly(IpAt(Value(opts, 1)), l.prefix);
    }
  }

  lemma ReplyExactly(p: seq<Byte>, xid: Xid, mac: Mac, kind: int, l: Lease)
    ensures Reply(p, xid, mac) == Some((kind, l)) <==> Says(p, xid, mac, kind, l)
  {
    hide LeaseOf, LeaseIs, Spells, ForClient, Options, Usable, PublicHost;
    FixedFields(p, xid, mac);
    if ForClient(p, xid, mac) && Options(p, 240, map[]).Some? {
      var opts := Options(p, 240, map[]).value;
      SpellsIs(Value(opts, 54));
      if |Value(opts, 54)| == 4 {
        HostExactly(IpAt(Value(opts, 54)));
        LeaseExactly(p, opts, IpAt(Value(opts, 54)), l);
      }
    }
  }

  // ---- The handoff record ------------------------------------------------------------------------------

  /** A record authorizes the use of its address while it has not run out, for at most five seconds. */
  lemma StatusExactly(s: Status, now: int)
    ensures s.Valid(now) <==>
      && |s.generation| == 32 && (forall i :: 0 <= i < 32 ==> '0' <= s.generation[i] <= '9' || 'a' <= s.generation[i] <= 'f')
      && s.sequence != 0 && now < s.validUntil <= now + 5_000_000_000
      && s.address.Some? && s.router.Some? && Network(s.address.value, s.prefix, s.router.value)
  {
    hide Network, ValidAddress;
    assert forall i :: 0 <= i < |s.generation| ==> s.generation[i] in s.generation;
    if s.address.Some? && s.router.Some? {
      NetworkExactly(s.address.value, s.prefix, s.router.value);
    } else {
      NoNetwork(s);
    }
  }

  lemma NoNetwork(s: Status)
    requires s.address.None? || s.router.None?
    ensures !ValidAddress(s.address, s.prefix, s.router)
  {
  }
}
