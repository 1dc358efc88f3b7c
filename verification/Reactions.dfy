/** What the DHCP client does about each thing that can happen to it, in plain numbers: refusals, foreign use of its
    address, offers, grants, timeouts and heartbeats. */
module Reactions {
  import opened Basics
  import opened NetConfig
  import opened Ipv4
  import opened Dhcp
  import opened LeaseOwner
  import opened DhcpClient
  import opened LeaseRuns

  // ---- Refusals ------------------------------------------------------------------------------------------

  /** The packet of this pass is a refusal of the running transaction by the server that is listened to. */
  ghost predicate RefusedBy(b: Client, mac: Mac, t: Tick, l: Lease) {
    && Message(b, mac, t) == Some((6, l))
    && b.phase in {Requesting, Renewing, Rebinding}
    && (b.phase == Requesting ==> l.server == b.offered.server)
    && (b.phase == Renewing ==> l.server == b.owner.lease.server)
  }

  ghost predicate IsRefused(b: Client, mac: Mac, t: Tick) {
    exists l :: RefusedBy(b, mac, t, l)
  }

  /** Nothing is leased, configured or advertised. */
  ghost predicate HasNothing(o: Owner) {
    o.lease.address.None? && o.world.addresses == map[] && o.world.handoff.None?
  }

  /** The calls that take everything back, in order. */
  function TakeBack(o: Owner): seq<Action> {
    [RemoveHandoff(true)] +
    if o.lease.address.Some?
    then [DeleteRoute(o.lease.router, Done), DeleteAddress((o.lease.address.value, o.lease.prefix), Done)] else []
  }

  /** A refusal takes back the handoff, the route and the address, in this order, and discovery starts over a second
      later; when one of the calls fails the client stops. */
  lemma RefusalWithdraws(b: Client, mac: Mac, t: Tick)
    requires Owned(b.owner) && IsRefused(b, mac, t)
    ensures var (c, f) := Receive(b, mac, t); var had := b.owner.lease.address.Some?;
      && (f == Again <==> t.nak.removed && (had ==> t.nak.route == Done && t.nak.address == Done))
      && (f != Again ==> f == Stop(true))
      && (f == Again ==>
            && HasNothing(c.owner) && c.owner.log == b.owner.log + TakeBack(b.owner)
            && (had ==> c.owner.world.route.None?)
            && c.phase == Init && c.next == t.nakAt + 1_000_000_000)
  {
    hide DhcpPayload, Reply, Owned, Withdraw, TakeBack, HasNothing, Granted;
    var l :| RefusedBy(b, mac, t, l);
    WithdrawTakesBack(b.owner, t.nak);
  }

  lemma WithdrawTakesBack(o: Owner, io: WithdrawIO)
    requires Owned(o)
    ensures var (o', ok) := Withdraw(o, io); var had := o.lease.address.Some?;
      && (ok <==> io.removed && (had ==> io.route == Done && io.address == Done))
      && (ok ==> HasNothing(o') && o'.log == o.log + TakeBack(o) && (had ==> o'.world.route.None?))
  {
    hide After, Orderly;
    var o1 := Do(o, RemoveHandoff(io.removed));
    if o.lease.address.Some? && io == WithdrawIO(true, Done, Done) {
      var a, b, c := RemoveHandoff(true), DeleteRoute(o.lease.router, Done), DeleteAddress(Held(o.lease), Done);
      assert (o1.world.addresses - {Held(o.lease)}) == map[];
      assert o.log + [a] + [b] + [c] == o.log + [a, b, c];
      assert TakeBack(o) == [a] + [b, c] == [a, b, c];
    }
  }

  /** Over any run: no pass whose packet was such a refusal is followed by anything but a client with nothing. */
  lemma RefusalEndsEverything(c: Client, mac: Mac, ticks: seq<Tick>, n: nat)
    requires Owned(c.owner) && n < |ticks| && forall i :: 0 <= i < |ticks| ==> InOrder(ticks[i])
    requires RunPasses(c, mac, ticks[..n]).1 == Again
    requires var (b, f) := BeforeReceive(RunPasses(c, mac, ticks[..n]).0, mac, ticks[n]);
      f == Go && IsRefused(b, mac, ticks[n])
    ensures var (c', f) := RunPasses(c, mac, ticks[..n + 1]);
      f == Stop(true) || (f == Again && HasNothing(c'.owner) && c'.phase == Init)
  {
    hide Owned, BeforeReceive, Receive, IsRefused, HasNothing;
    var (m, _) := RunPasses(c, mac, ticks[..n]);
    var (b, f) := BeforeReceive(m, mac, ticks[n]);
    RunKeeps(c, mac, ticks[..n]);
    BeforeKeeps(m, mac, ticks[n]);
    RefusalWithdraws(b, mac, ticks[n]);
    LastPass(c, mac, ticks[..n], ticks[n]);
    assert ticks[..n + 1] == ticks[..n] + [ticks[n]];
  }

  lemma BeforeKeeps(c: Client, mac: Mac, t: Tick)
    requires Owned(c.owner) && InOrder(t)
    ensures var (b, f) := BeforeReceive(c, mac, t); f == Go ==> Owned(b.owner)
  {
    hide Owned, LogInv, KeepLease, Transmit;
    KeepLeaseKeeps(c, mac, t);
    var (c1, f1) := KeepLease(c, mac, t);
    if f1 == Go {
      TransmitKeeps(c1, mac, t);
    }
  }

  lemma {:induction false} LastPass(c: Client, mac: Mac, ticks: seq<Tick>, t: Tick)
    requires RunPasses(c, mac, ticks).1 == Again
    ensures RunPasses(c, mac, ticks + [t]) == Pass(RunPasses(c, mac, ticks).0, mac, t)
    decreases |ticks|
  {
    hide Pass;
    if ticks == [] {
      assert RunPasses(Pass(c, mac, t).0, mac, []) == (Pass(c, mac, t).0, Again);
      assert ([] + [t])[1..] == [];
    } else {
      assert (ticks + [t])[1..] == ticks[1..] + [t];
      LastPass(Pass(c, mac, ticks[0]).0, mac, ticks[1..], t);
    }
  }

  // ---- Foreign use of the address --------------------------------------------------------------------

  /** The number that four bytes spell. */
  function Number(a: int, b: int, c: int, d: int): int {
    a * 0x100_0000 + b * 0x1_0000 + c * 256 + d
  }

  /** An ARP packet for IPv4 over Ethernet, request or answer, by which another host says that it has this address. */
  predicate Claims(p: seq<Byte>, mac: Mac, ip: Ip) {
    && |p| >= 28 && p[0] == 0 && p[1] == 1 && p[2] == 8 && p[3] == 0 && p[4] == 6 && p[5] == 4 && p[6] == 0
    && (p[7] == 1 || p[7] == 2)
    && (exists i :: 0 <= i < 6 && p[8 + i] != mac[i])
    && Number(p[14], p[15], p[16], p[17]) == ip
  }

  /** Another host asks for the address from nowhere, as a probe does. */
  predicate ProbesFor(p: seq<Byte>, mac: Mac, ip: Ip) {
    && |p| >= 28 && p[0] == 0 && p[1] == 1 && p[2] == 8 && p[3] == 0 && p[4] == 6 && p[5] == 4 && p[6] == 0
    && (p[7] == 1 || p[7] == 2)
    && (exists i :: 0 <= i < 6 && p[8 + i] != mac[i])
    && p[14] == p[15] == p[16] == p[17] == 0
    && Number(p[24], p[25], p[26], p[27]) == ip
  }

  lemma ConflictExactly(p: seq<Byte>, mac: Mac, ip: Ip, probing: bool)
    ensures ArpConflict(p, mac, ip, probing) <==> Claims(p, mac, ip) || (probing && ProbesFor(p, mac, ip))
  {
    hide U32, Number, Zeros;
    if |p| >= 28 {
      OtherMac(p, mac);
      ArpKind(p);
      IpAtPlace(p, 14, ip);
      IpAtPlace(p, 24, ip);
      ZeroBytes(p[14..18]);
    }
  }

  lemma OtherMac(p: seq<Byte>, mac: Mac)
    requires |p| >= 28
    ensures p[8..14] != mac <==> exists i :: 0 <= i < 6 && p[8 + i] != mac[i]
  {
    if forall i :: 0 <= i < 6 ==> p[8 + i] == mac[i] {
      assert p[8..14] == mac;
    }
  }

  lemma ArpKind(p: seq<Byte>)
    requires |p| >= 28
    ensures p[..7] == [0, 1, 8, 0, 6, 4, 0] <==>
      p[0] == 0 && p[1] == 1 && p[2] == 8 && p[3] == 0 && p[4] == 6 && p[5] == 4 && p[6] == 0
  {
  }

  lemma IpAtPlace(p: seq<Byte>, i: nat, ip: Ip)
    requires i + 4 <= |p|
    ensures p[i..i + 4] == U32(ip) <==> Number(p[i], p[i + 1], p[i + 2], p[i + 3]) == ip
  {
    U32Inverse(p[i..i + 4]);
    U32RoundTrip(ip);
  }

  lemma ZeroBytes(b: seq<Byte>)
    requires |b| == 4
    ensures b == Zeros(4) <==> b[0] == b[1] == b[2] == b[3] == 0
  {
  }

  /** With a leased address every pass reads the ARP socket before it goes on, and goes on only if nobody claims the address;
      if somebody does, the server is told in a DECLINE, and the client stops. */
  lemma ClaimStops(c: Client, mac: Mac, t: Tick)
    ensures var (b, f) := BeforeReceive(c, mac, t);
      f == Go && b.owner.lease.address.Some? ==> t.arp.Some? && !Claims(t.arp.value, mac, b.owner.lease.address.value)
  {
    hide ExpireLease, BeatLease, RenewLease, Claims, ArpConflict, Packet, Broadcast, Envelope;
    if c.owner.lease.address.Some? {
      var c1 := ExpireLease(c, t).0;
      var c2 := BeatLease(c1, t).0;
      var c3 := RenewLease(c2, t).0;
      if t.arp.Some? && c3.owner.lease.address.Some? {
        ConflictExactly(t.arp.value, mac, c3.owner.lease.address.value, false);
      }
    }
  }

  lemma ClaimIsDeclined(c: Client, mac: Mac, t: Tick)
    requires c.owner.lease.address.Some? && t.arp.Some?
    ensures var (g, f) := GuardAddress(c, mac, t); var l := c.owner.lease;
      if Claims(t.arp.value, mac, l.address.value) then
        && f == Stop(true) && g.owner.lease == l && g.owner.world == c.owner.world
        && g.owner.log == c.owner.log +
             [Sent(4, c.xid, t.now, Broadcast(Packet(4, c.xid, mac, l.address, l.server, None)), t.declined)]
      else g == c && f == Go
  {
    hide Claims, ArpConflict, Packet, Broadcast;
    ConflictExactly(t.arp.value, mac, c.owner.lease.address.value, false);
  }

  // ---- Sending ---------------------------------------------------------------------------------------

  /** A message to everybody, from port 68 to port 67 and without an address of its own. */
  function ToAll(message: seq<Byte>): seq<Byte> {
    Envelope(0, 0xFFFF_FFFF, 68, 67, message)
  }

  function With(c: Client, a: Action): Client {
    c.(owner := c.owner.(world := Perform(c.owner.world, a), log := c.owner.log + [a]))
  }

  /** The waiting time before the next attempt is 4, 8 or 16 seconds. */
  predicate RetryInv(c: Client) {
    c.retry in {4_000_000_000, 8_000_000_000, 16_000_000_000}
  }

  /** The next attempt comes after the current waiting time, and the one after that after twice as long, up to 16 seconds. */
  function Later(c: Client, now: int): Client {
    c.(next := now + c.retry,
       retry := if c.retry == 4_000_000_000 then 8_000_000_000 else if c.retry == 8_000_000_000 then 16_000_000_000 else c.retry)
  }

  /** What is sent when something is due, phase by phase. */
  ghost predicate Sends(c: Client, mac: Mac, t: Tick, r: Client, f: Flow) {
    match c.phase
    case Init =>
      if t.entropy.None? then r == c && f == Stop(true)
      else
        var x := t.entropy.value;
        var sent := With(c.(xid := x, phase := Selecting, attempt := t.now, retry := 4_000_000_000),
                         Sent(1, x, t.now, ToAll(Packet(1, x, mac, None, None, None)), t.sent));
        if t.sent then r == Later(sent, t.now) && f == Go else r == sent && f == Stop(true)
    case Selecting =>
      var sent := With(c.(attempt := t.now), Sent(1, c.xid, t.now, ToAll(Packet(1, c.xid, mac, None, None, None)), t.sent));
      if t.sent then r == Later(sent, t.now) && f == Go else r == sent && f == Stop(true)
    case Requesting => r == c.(phase := Init, next := 0) && f == Again
    case Bound => r == Later(c, t.now) && f == Go
    case Renewing =>
      r == Later(With(c, Sent(3, c.xid, t.now, Packet(3, c.xid, mac, None, None, c.owner.lease.address), t.sent)), t.now) && f == Go
    case Rebinding =>
      var ip := c.owner.lease.address;
      var message := Packet(3, c.xid, mac, None, None, ip);
      var sent := With(c, Sent(3, c.xid, t.now, Envelope(if ip.Some? then ip.value else 0, 0xFFFF_FFFF, 68, 67, message), t.sent));
      if t.sent then r == Later(sent, t.now) && f == Go else r == sent && f == Stop(true)
  }

  lemma TransmitExactly(c: Client, mac: Mac, t: Tick)
    requires RetryInv(c)
    ensures var (r, f) := Transmit(c, mac, t);
      (if t.now < c.next then r == c && f == Go else Sends(c, mac, t, r, f)) && RetryInv(r)
  {
    hide Packet, Envelope, Perform;
  }

  lemma {:induction false} RunRetries(c: Client, mac: Mac, ticks: seq<Tick>)
    requires RetryInv(c)
    ensures RetryInv(RunPasses(c, mac, ticks).0)
    decreases |ticks|
  {
    hide Pass, RetryInv;
    if ticks != [] {
      PassRetries(c, mac, ticks[0]);
      RunRetries(Pass(c, mac, ticks[0]).0, mac, ticks[1..]);
    }
  }

  lemma PassRetries(c: Client, mac: Mac, t: Tick)
    requires RetryInv(c)
    ensures RetryInv(Pass(c, mac, t).0)
  {
    hide Withdraw, Heartbeat, Install, Transmit, Packet, Broadcast, Envelope, Message, Probe, ArpConflict;
    var c1 := KeepLease(c, mac, t).0;
    assert c1.retry == c.retry;
    TransmitExactly(c1, mac, t);
    var c2 := Transmit(c1, mac, t).0;
    ReceiveRetries(c2, mac, t);
  }

  lemma ReceiveRetries(b: Client, mac: Mac, t: Tick)
    ensures Receive(b, mac, t).0.retry == b.retry || Receive(b, mac, t).0.retry == 4_000_000_000
  {
    hide Withdraw, Install, Packet, Broadcast, Message, Probe;
    if Message(b, mac, t).Some? {
      MessageIsSound(b, mac, t);
    }
  }

  // ---- Receiving -------------------------------------------------------------------------------------

  /** A message that this phase waits for: an offer while selecting; afterwards, from the server that is listened to, a
      refusal or the acknowledgement of what was asked for. */
  predicate Awaited(b: Client, kind: int, l: Lease) {
    || (b.phase == Selecting && kind == 2)
    || (b.phase == Requesting && l.server == b.offered.server && (kind == 6 || (kind == 5 && l.address == b.offered.address)))
    || (b.phase == Renewing && l.server == b.owner.lease.server && (kind == 5 || kind == 6))
    || (b.phase == Rebinding && (kind == 5 || kind == 6))
  }

  /** A message is answered only if it is awaited; every other packet is dropped. An offer is requested at once, from
      everybody, with eight seconds to answer. */
  lemma ReceiveExactly(b: Client, mac: Mac, t: Tick)
    ensures var (r, f) := Receive(b, mac, t); var m := Message(b, mac, t);
      && (t.packet.None? ==> r == b && f == Stop(true))
      && (t.packet.Some? && (m.None? || !Awaited(b, m.value.0, m.value.1)) ==> r == b && f == Again)
      && (b.phase == Selecting && m.Some? && m.value.0 == 2 ==>
            var l := m.value.1;
            && r == With(b.(offered := l, phase := Requesting, attempt := t.requestAt, next := t.requestAt + 8_000_000_000),
                         Sent(3, b.xid, t.requestAt, ToAll(Packet(3, b.xid, mac, l.address, l.server, None)), t.requestSent))
            && f == if t.requestSent then Again else Stop(true))
  {
    hide DhcpPayload, Reply, Granted, Refused, Packet, Envelope, Perform, SoundLease;
    if Message(b, mac, t).Some? {
      MessageIsSound(b, mac, t);
    }
  }

  /** An acknowledgement that is awaited. */
  ghost predicate AckedBy(b: Client, mac: Mac, t: Tick, l: Lease) {
    Message(b, mac, t) == Some((5, l)) && Awaited(b, 5, l)
  }

  /** A grant ends in one of four ways. The client is bound to exactly this lease, counted from its request, with more
      than five seconds of it left when that was checked, and - for a changed network - after a clear probe; or it starts
      over, because somebody answered the probe and the server was told, or because too little of the lease is left;
      or it stops. */
  ghost predicate GrantEnds(b: Client, mac: Mac, t: Tick, l: Lease, r: Client, f: Flow)
    requires l.address.Some?
  {
    var same := l.address == b.owner.lease.address && l.prefix == b.owner.lease.prefix && l.router == b.owner.lease.router;
    || f.Stop?
    || (&& f == Again && r.phase == Bound && r.acquired == b.attempt && r.next == t.boundAt + l.renew && r.retry == 4_000_000_000
        && (r.owner.lease.address.Some? ==> r.owner.lease == l && r.owner.expires == b.attempt + l.duration)
        && t.checkAt + 5_000_000_000 < b.attempt + l.duration && t.install.overlapFree
        && (!same ==> Probe(t.probe, mac, l.address.value, t.first, t.probeAt) == Clear && t.announced))
    || (&& f == Again && r.phase == Init && r.next == 0 && same && r.owner == b.owner
        && t.checkAt + 5_000_000_000 >= b.attempt + l.duration)
    || (&& f == Again && r.phase == Init && r.next == 0 && !same && r.owner.lease.address.None?
        && ((&& Probe(t.probe, mac, l.address.value, t.first, t.probeAt) == Clear
             && t.checkAt + 5_000_000_000 >= b.attempt + l.duration)
            || (&& Probe(t.probe, mac, l.address.value, t.first, t.probeAt) == Conflict && t.paused && r.owner.log != []
                && r.owner.log[|r.owner.log| - 1] ==
                     Sent(4, b.xid, t.probeAt, ToAll(Packet(4, b.xid, mac, l.address, l.server, None)), t.declined))))
  }

  lemma GrantExactly(b: Client, mac: Mac, t: Tick)
    requires exists l :: AckedBy(b, mac, t, l)
    ensures var (r, f) := Receive(b, mac, t);
      && Message(b, mac, t).Some? && Message(b, mac, t).value.1.address.Some?
      && GrantEnds(b, mac, t, Message(b, mac, t).value.1, r, f)
  {
    hide DhcpPayload, Reply, Granted, Packet, Envelope, SoundLease, GrantEnds;
    var l :| AckedBy(b, mac, t, l);
    MessageIsSound(b, mac, t);
    GrantedEnds(b, mac, t, l);
  }

  lemma GrantedEnds(b: Client, mac: Mac, t: Tick, l: Lease)
    requires l.address.Some?
    ensures GrantEnds(b, mac, t, l, Granted(b, mac, t, l).0, Granted(b, mac, t, l).1)
  {
    hide Withdraw, Install, Packet, Envelope, Probe, Perform;
    WithdrawLease(b.owner, t.change);
    if l.SameNet(b.owner.lease) {
      InstallLeaves(b.owner, l, b.attempt + l.duration, t.install);
    } else {
      var (c1, f1) := Clearance(b, mac, t, l);
      if f1 == Go {
        InstallLeaves(c1.owner, l, c1.attempt + l.duration, t.install);
      }
    }
  }

  lemma InstallLeaves(o: Owner, l: Lease, expires: int, io: InstallIO)
    requires l.address.Some?
    ensures var (o', ok) := Install(o, l, expires, io);
      ok ==> io.overlapFree && (o'.lease.address.Some? ==> o'.lease == l && o'.expires == expires)
  {
    hide Heartbeat, Replace;
    if io.overlapFree {
      var o1 := if l.SameNet(o.lease) then o else Replace(o, l, io).0;
      HeartbeatLease(o1.(lease := l, expires := expires), io.now, io.beat);
    }
  }

  // ---- Timers and heartbeats --------------------------------------------------------------------------

  /** At the first timer the leasing server is asked, at the second anybody; each time under a new transaction, at once. */
  lemma RenewExactly(c: Client, t: Tick)
    requires c.owner.lease.address.Some?
    ensures var (r, f) := RenewLease(c, t); var l, elapsed := c.owner.lease, t.now - c.acquired;
      var phase := if elapsed >= l.rebind && c.phase != Rebinding then Rebinding
                   else if elapsed >= l.renew && c.phase == Bound then Renewing else c.phase;
      if phase == c.phase then r == c && f == Go
      else if t.entropy.None? then f == Stop(true) && r.owner == c.owner
      else r == c.(phase := phase, next := 0, attempt := t.now, xid := t.entropy.value) && f == Go
  {
  }

  /** The largest number of whole seconds, at most four, in the time that is left; the limit never comes with expiry 0. */
  predicate WholeSecondsLeft(expires: int, now: int, seconds: int) {
    && 1 <= seconds <= 4 && (expires != 0 ==> now + seconds * 1_000_000_000 <= expires)
    && (seconds == 4 || (expires != 0 && expires < now + (seconds + 1) * 1_000_000_000))
  }

  lemma SecondsExactly(expires: int, now: int)
    requires expires == 0 || expires >= now
    ensures forall n :: WholeSecondsLeft(expires, now, n) <==> Seconds(expires, now) == n && n >= 1
    ensures Seconds(expires, now) < 1 <==> expires != 0 && expires < now + 1_000_000_000
  {
  }

  /** The authorization of a heartbeat: one later in order, half a second shorter than the lifetime. */
  function Authorized(s: Status, now: int, seconds: int): Status {
    Status(s.generation, (s.sequence + 1) % 0x1_0000_0000_0000_0000, s.address, s.prefix, s.router,
           now + seconds * 1_000_000_000 - 500_000_000)
  }

  /** While a whole second is left a heartbeat renews the address first, for that many seconds but at most four, and then
      the authorization; with less than a second left it takes everything back. */
  lemma HeartbeatExactly(o: Owner, now: int, io: BeatIO, seconds: int)
    requires o.lease.address.Some? && (o.expires == 0 || o.expires >= now)
    ensures var (r, ok) := Heartbeat(o, now, io); var net := (o.lease.address.value, o.lease.prefix);
      && (o.expires != 0 && o.expires < now + 1_000_000_000 ==> (r, ok) == Withdraw(o, io.withdraw))
      && (WholeSecondsLeft(o.expires, now, seconds) ==>
            var renewal, status := SetAddress(net, Grant(io.at, seconds), io.address), Authorized(o.status, now, seconds);
            if io.address != Done then !ok && r.log == o.log + [renewal] && r.status == o.status
            else ok == io.written && r.status == status && r.log == o.log + [renewal, WriteHandoff(status, io.written)]
                 && r.lease == o.lease && r.expires == o.expires)
  {
    hide Withdraw, Seconds, Perform;
    SecondsExactly(o.expires, now);
    var net := Held(o.lease);
    if WholeSecondsLeft(o.expires, now, seconds) {
      var renewal, status := SetAddress(net, Grant(io.at, seconds), io.address), Authorized(o.status, now, seconds);
      assert o.log + [renewal] + [WriteHandoff(status, io.written)] == o.log + [renewal, WriteHandoff(status, io.written)];
    }
  }

  /** A new network that every call accepts: the old one is taken back, then the address is configured for four seconds,
      then its route, and only after another heartbeat it is authorized, first in a new generation. */
  lemma InstallExactly(o: Owner, l: Lease, expires: int, io: InstallIO, seconds: int)
    requires Owned(o) && l.address.Some? && !l.SameNet(o.lease) && io.overlapFree && io.generation.Some?
    requires io.withdraw == WithdrawIO(true, Done, Done) && io.address == Done && io.route == Done
    requires io.beat.address == Done && io.beat.written && (expires == 0 || expires >= io.now)
    requires WholeSecondsLeft(expires, io.now, seconds)
    ensures var (r, ok) := Install(o, l, expires, io); var net := (l.address.value, l.prefix);
      var status := Status(io.generation.value, 1, l.address, l.prefix, l.router, io.now + seconds * 1_000_000_000 - 500_000_000);
      && ok && r.lease == l && r.expires == expires && r.status == status
      && r.log == o.log + TakeBack(o) +
           [SetAddress(net, Grant(io.at, 4), Done), AddRoute(l.router, Done),
            SetAddress(net, Grant(io.beat.at, seconds), Done), WriteHandoff(status, true)]
  {
    hide Owned, Withdraw, Heartbeat, TakeBack, Perform;
    WithdrawTakesBack(o, io.withdraw);
    var o1 := Withdraw(o, io.withdraw).0;
    var o2 := Replace(o, l, io).0.(lease := l, expires := expires);
    var a, b := SetAddress(Held(l), Grant(io.at, 4), Done), AddRoute(l.router, Done);
    assert o2.log == o1.log + [a] + [b];
    HeartbeatExactly(o2, io.now, io.beat, seconds);
    var c, d := SetAddress(Held(l), Grant(io.beat.at, seconds), Done), WriteHandoff(Authorized(o2.status, io.now, seconds), true);
    assert o1.log + [a] + [b] + [c, d] == o1.log + [a, b, c, d];
  }

  /** An installation succeeds exactly when nothing overlaps, every call for a new network succeeds, and the heartbeat does. */
  lemma InstallSucceeds(o: Owner, l: Lease, expires: int, io: InstallIO)
    requires Owned(o) && l.address.Some?
    ensures Install(o, l, expires, io).1 <==>
      && io.overlapFree
      && (!l.SameNet(o.lease) ==>
            && io.withdraw.removed && (o.lease.address.Some? ==> io.withdraw.route == io.withdraw.address == Done)
            && io.generation.Some? && io.address == Done && io.route == Done)
      && if Seconds(expires, io.now) < 1 then io.beat.withdraw.removed && io.beat.withdraw.route == io.beat.withdraw.address == Done
         else io.beat.address == Done && io.beat.written
  {
    hide Owned, Seconds, Perform, TakeBack, HasNothing;
    WithdrawTakesBack(o, io.withdraw);
  }

  /** At the end of the lease everything is taken back. */
  lemma ExpiryExactly(c: Client, t: Tick)
    requires Owned(c.owner)
    ensures var (r, f) := ExpireLease(c, t); var had := c.owner.lease.address.Some?;
      if t.now < c.owner.expires then r == c && f == Go
      else if t.expire.removed && (had ==> t.expire.route == t.expire.address == Done) then
        && f == Go && HasNothing(r.owner) && r.owner.log == c.owner.log + TakeBack(c.owner) && r.phase == Init && r.next == 0
      else f == Stop(true)
  {
    hide Owned, Withdraw, TakeBack, HasNothing;
    WithdrawTakesBack(c.owner, t.expire);
  }

  /** A heartbeat is due a second after the last one. */
  lemma BeatExactly(c: Client, t: Tick)
    ensures var (r, f) := BeatLease(c, t); var (o, ok) := Heartbeat(c.owner, t.now, t.beat);
      if t.now <= c.heartbeat then r == c && f == Go
      else if !ok then f == Stop(true) && r.owner == o
      else
        && f == Go && r.owner == o && r.heartbeat == t.now + 1_000_000_000
        && (if o.lease.address.None? then r.phase == Init && r.next == 0 else r.phase == c.phase && r.next == c.next)
  {
    hide Heartbeat;
  }

  /** Whenever a packet is read with an address leased: the lease has not ended, the last heartbeat was less than a second
      ago, and renewal and rebinding have begun as soon as they were due. */
  lemma KeepsUp(c: Client, mac: Mac, t: Tick)
    requires c.owner.lease.address.Some?
    ensures var (b, f) := BeforeReceive(c, mac, t);
      f == Go && b.owner.lease.address.Some? ==>
        && t.now < b.owner.expires && t.now <= b.heartbeat
        && (t.now > c.heartbeat ==> b.heartbeat == t.now + 1_000_000_000 && BeatLogged(c.owner.log, b.owner.log))
        && (t.now - b.acquired >= b.owner.lease.rebind && c.phase in {Bound, Renewing, Rebinding} ==> b.phase == Rebinding)
        && (t.now - b.acquired >= b.owner.lease.renew ==> b.phase != Bound)
  {
    hide KeepLease, Packet, Broadcast, Envelope, BeatLogged, Perform;
    var (k, g) := KeepLease(c, mac, t);
    var (b, f) := BeforeReceive(c, mac, t);
    LeaseIsCurrent(c, mac, t);
    if f == Go && b.owner.lease.address.Some? && t.now > c.heartbeat {
      BeatIsKept(c, mac, t);
      if b.owner.log != k.owner.log {
        SentAfter(c.owner.log, k.owner.log, b.owner.log[|b.owner.log| - 1]);
      }
    }
  }

  /** The address was renewed and then authorized; after that at most one message was sent. */
  ghost predicate BeatLogged(before: seq<Action>, after: seq<Action>) {
    var n := |before|;
    && n + 2 <= |after| <= n + 3 && after[..n] == before
    && after[n].SetAddress? && after[n].effect == Done && after[n + 1].WriteHandoff? && after[n + 1].written
    && (|after| == n + 3 ==> after[n + 2].Sent?)
  }

  lemma LeaseIsCurrent(c: Client, mac: Mac, t: Tick)
    requires c.owner.lease.address.Some?
    ensures var (k, f) := KeepLease(c, mac, t);
      f == Go && k.owner.lease.address.Some? ==>
        && t.now < k.owner.expires && t.now <= k.heartbeat && (t.now > c.heartbeat ==> k.heartbeat == t.now + 1_000_000_000)
        && (t.now - k.acquired >= k.owner.lease.rebind && c.phase in {Bound, Renewing, Rebinding} ==> k.phase == Rebinding)
        && (t.now - k.acquired >= k.owner.lease.renew ==> k.phase != Bound)
  {
    hide Withdraw, Heartbeat, Packet, Broadcast, ArpConflict, Perform;
    WithdrawLease(c.owner, t.expire);
    var c1 := ExpireLease(c, t).0;
    HeartbeatLease(c1.owner, t.now, t.beat);
  }

  lemma BeatIsKept(c: Client, mac: Mac, t: Tick)
    requires c.owner.lease.address.Some? && t.now > c.heartbeat
    ensures var (k, f) := KeepLease(c, mac, t);
      f == Go && k.owner.lease.address.Some? ==> BeatLogged(c.owner.log, k.owner.log) && |k.owner.log| == |c.owner.log| + 2
  {
    hide Withdraw, Heartbeat, Packet, Broadcast, ArpConflict, BeatLogged, Perform;
    WithdrawLease(c.owner, t.expire);
    var c1 := ExpireLease(c, t).0;
    HeartbeatLease(c1.owner, t.now, t.beat);
    BeatIsLogged(c1.owner, t.now, t.beat);
  }

  lemma BeatIsLogged(o: Owner, now: int, io: BeatIO)
    ensures var (r, ok) := Heartbeat(o, now, io);
      ok && r.lease.address.Some? ==> BeatLogged(o.log, r.log) && |r.log| == |o.log| + 2
  {
    hide Seconds, Perform, Withdraw;
    WithdrawLease(o, io.withdraw);
  }

  lemma SentAfter(before: seq<Action>, log: seq<Action>, a: Action)
    requires BeatLogged(before, log) && |log| == |before| + 2 && a.Sent?
    ensures BeatLogged(before, log + [a])
  {
  }

  // ---- Probing ---------------------------------------------------------------------------------------

  /** Nobody claims the address or probes for it in this packet. */
  predicate Silent(t: ProbeTick, mac: Mac, ip: Ip) {
    t.packet.Some? && !Claims(t.packet.value, mac, ip) && !ProbesFor(t.packet.value, mac, ip)
  }

  lemma SilentExactly(t: ProbeTick, mac: Mac, ip: Ip)
    ensures Silent(t, mac, ip) <==> Quiet(t, mac, ip)
  {
    hide Claims, ProbesFor, ArpConflict;
    if t.packet.Some? {
      ConflictExactly(t.packet.value, mac, ip, true);
    }
  }

  /** A clear probe: three probes got out, the first of them after the start, each more than a second after the one before,
      two seconds went by after the third, and every packet read until then was silent. */
  lemma ThreeProbes(ticks: seq<ProbeTick>, mac: Mac, ip: Ip, first: Option<Byte>, start: int)
    returns (a: nat, b: nat, c: nat, n: nat)
    requires Probe(ticks, mac, ip, first, start) == Clear
    ensures a < b < c < n < |ticks| && ticks[a].sent && ticks[b].sent && ticks[c].sent
    ensures ticks[a].now > start && ticks[b].now > ticks[a].after + 1_000_000_000 && ticks[c].now > ticks[b].after + 1_000_000_000
    ensures ticks[n].now > ticks[c].after + 2_000_000_000
    ensures forall i :: 0 <= i < n ==> Silent(ticks[i], mac, ip)
  {
    hide Silent, Quiet;
    assert ticks[0..] == ticks;
    var next := start + first.value * SECOND / 256;
    assert next >= start;
    var at;
    n, at := ClearMeansQuiet(ticks, 0, mac, ip, 0, next);
    a, b, c := at[0], at[1], at[2];
    assert GotOutAt(ticks, at[0]) && GotOutAt(ticks, at[1]) && GotOutAt(ticks, at[2]);
    assert SecondApart(ticks, at[0], at[1]) && SecondApart(ticks, at[1], at[2]);
    forall i | 0 <= i < n
      ensures Silent(ticks[i], mac, ip)
    {
      SilentExactly(ticks[i], mac, ip);
    }
  }

  /** The clock does not run back, every probe gets out and every packet is silent. */
  ghost predicate Undisturbed(ticks: seq<ProbeTick>, mac: Mac, ip: Ip) {
    && (forall i :: 0 <= i < |ticks| ==>
          ticks[i].now <= ticks[i].after && ticks[i].sent && ticks[i].entropy.Some? && Silent(ticks[i], mac, ip))
    && (forall i, j :: 0 <= i < j < |ticks| ==> ticks[i].after <= ticks[j].now)
  }

  /** The remaining probes and the end, each more than two seconds after the one before. */
  ghost predicate Chances(ticks: seq<ProbeTick>, from: nat, next: int, at: seq<nat>) {
    && at != [] && from <= at[0] && (forall k :: 0 <= k < |at| ==> at[k] < |ticks|)
    && ticks[at[0]].now > next
    && forall k :: 0 <= k < |at| - 1 ==> at[k] < at[k + 1] && ticks[at[k + 1]].now > ticks[at[k]].after + 2_000_000_000
  }

  lemma {:induction false} GoesOnClear(ticks: seq<ProbeTick>, from: nat, mac: Mac, ip: Ip, sent: nat, next: int,
                                       at: seq<nat>)
    requires Undisturbed(ticks, mac, ip) && from <= |ticks| && sent <= 3 && |at| == 4 - sent && Chances(ticks, from, next, at)
    ensures Probing(ticks[from..], mac, ip, sent, next) == Clear
    decreases |ticks| - from
  {
    hide ArpConflict, Silent;
    var t := ticks[from];
    assert ticks[from..][0] == t && ticks[from..][1..] == ticks[from + 1..];
    SilentExactly(t, mac, ip);
    if t.now <= next {
      GoesOnClear(ticks, from + 1, mac, ip, sent, next, at);
    } else if sent < 3 {
      var next' := if sent + 1 == 3 then t.after + 2 * SECOND else t.after + SECOND + t.entropy.value * SECOND / 256;
      assert next' <= t.after + 2_000_000_000;
      LaterChances(ticks, from, next, next', at);
      GoesOnClear(ticks, from + 1, mac, ip, sent + 1, next', at[1..]);
    }
  }

  lemma LaterChances(ticks: seq<ProbeTick>, from: nat, next: int, next': int, at: seq<nat>)
    requires from < |ticks| && |at| >= 2 && Chances(ticks, from, next, at) && next' <= ticks[from].after + 2_000_000_000
    requires forall i, j :: 0 <= i < j < |ticks| ==> ticks[i].after <= ticks[j].now
    requires forall i :: 0 <= i < |ticks| ==> ticks[i].now <= ticks[i].after
    ensures Chances(ticks, from + 1, next', at[1..])
  {
    var later := at[1..];
    assert at[0] < at[1] && ticks[at[1]].now > ticks[at[0]].after + 2_000_000_000;
    assert ticks[from].after <= ticks[at[0]].after;
    forall k | 0 <= k < |later| - 1
      ensures later[k] < later[k + 1] && ticks[later[k + 1]].now > ticks[later[k]].after + 2_000_000_000
    {
      assert later[k] == at[k + 1] && later[k + 1] == at[k + 2];
    }
  }

  /** On an undisturbed network the probe ends clear as soon as there were four passes, each more than two seconds after the
      one before. */
  lemma SilenceIsClear(ticks: seq<ProbeTick>, mac: Mac, ip: Ip, first: Byte, start: int, at: seq<nat>)
    requires Undisturbed(ticks, mac, ip) && |at| == 4 && Chances(ticks, 0, start + 1_000_000_000, at)
    ensures Probe(ticks, mac, ip, Some(first), start) == Clear
  {
    hide Silent;
    assert ticks[0..] == ticks;
    assert first * SECOND / 256 <= SECOND;
    GoesOnClear(ticks, 0, mac, ip, 0, start + first * SECOND / 256, at);
  }

  // ---- A grant that nothing stands in the way of ----------------------------------------------------------

  /** Every call succeeds: what is still there is taken back, the probe is clear, the new network is installed in time with a
      second of its lease left, and is announced. */
  predicate Smooth(b: Client, mac: Mac, t: Tick, l: Lease)
    requires l.address.Some?
  {
    var expires := b.attempt + l.duration;
    && t.checkAt + 5_000_000_000 < expires && expires != 0 && t.install.now + 1_000_000_000 <= expires
    && t.install.overlapFree && t.install.beat.address == Done && t.install.beat.written
    && (!l.SameNet(b.owner.lease) ==>
          && t.change == t.install.withdraw == WithdrawIO(true, Done, Done)
          && Probe(t.probe, mac, l.address.value, t.first, t.probeAt) == Clear
          && t.install.generation.Some? && t.install.address == t.install.route == Done && t.announced)
  }

  /** Then an awaited acknowledgement binds the client to its lease: configured, authorized, and nothing else. */
  lemma GrantSucceeds(b: Client, mac: Mac, t: Tick)
    requires Owned(b.owner) && InOrder(t) && exists l :: AckedBy(b, mac, t, l)
    ensures Message(b, mac, t).Some? && Message(b, mac, t).value.1.address.Some?
    ensures Smooth(b, mac, t, Message(b, mac, t).value.1) ==>
      var (r, f) := Receive(b, mac, t); var l := Message(b, mac, t).value.1; var o := r.owner;
      && f == Again && r.phase == Bound && o.lease == l && o.expires == b.attempt + l.duration
      && o.world.addresses.Keys == {(l.address.value, l.prefix)} && o.world.route == l.router
      && o.world.handoff.Some? && o.world.handoff.value.address == l.address && o.world.handoff.value.prefix == l.prefix
      && o.world.handoff.value.router == l.router
  {
    hide DhcpPayload, Reply, Packet, Envelope, SoundLease, Owned, Probe, Clearance, Accept;
    var l :| AckedBy(b, mac, t, l);
    MessageIsSound(b, mac, t);
    if Smooth(b, mac, t, l) {
      if l.SameNet(b.owner.lease) {
        AcceptBinds(b, mac, t, l, false);
      } else {
        ClearanceSucceeds(b, mac, t, l);
        AcceptBinds(Clearance(b, mac, t, l).0, mac, t, l, true);
      }
    }
  }

  lemma ClearanceSucceeds(b: Client, mac: Mac, t: Tick, l: Lease)
    requires Owned(b.owner) && l.address.Some? && Smooth(b, mac, t, l) && !l.SameNet(b.owner.lease)
    ensures var (c, f) := Clearance(b, mac, t, l);
      && f == Go && Owned(c.owner) && MayInstall(c.owner, l) && !l.SameNet(c.owner.lease) && c.attempt == b.attempt
      && c.owner.lease.address.None?
  {
    hide Owned, Probe, Packet, Envelope, Withdraw, TakeBack;
    ClearanceKeeps(b, mac, t, l);
    WithdrawTakesBack(b.owner, t.change);
  }

  lemma AcceptBinds(c: Client, mac: Mac, t: Tick, l: Lease, changed: bool)
    requires Owned(c.owner) && MayInstall(c.owner, l) && InOrder(t) && l.address.Some? && (changed ==> t.announced)
    requires t.checkAt + 5_000_000_000 < c.attempt + l.duration && c.attempt + l.duration != 0
    requires t.install.now + 1_000_000_000 <= c.attempt + l.duration
    requires t.install.overlapFree && t.install.beat.address == Done && t.install.beat.written
    requires !l.SameNet(c.owner.lease) ==>
      && t.install.withdraw == WithdrawIO(true, Done, Done) && t.install.generation.Some?
      && t.install.address == t.install.route == Done
    ensures var (r, f) := Accept(c, mac, t, l, changed); var o := r.owner;
      && f == Again && r.phase == Bound && o.lease == l && o.expires == c.attempt + l.duration
      && o.world.addresses.Keys == {(l.address.value, l.prefix)} && o.world.route == l.router
      && o.world.handoff.Some? && o.world.handoff.value.address == l.address && o.world.handoff.value.prefix == l.prefix
      && o.world.handoff.value.router == l.router
  {
    hide Owned, Install, Seconds, MayInstall;
    var expires := c.attempt + l.duration;
    SecondsExactly(expires, t.install.now);
    InstallSucceeds(c.owner, l, expires, t.install);
    InstallKeeps(c.owner, l, expires, t.install);
    InstallHolds(c.owner, l, expires, t.install);
  }

  lemma InstallHolds(o: Owner, l: Lease, expires: int, io: InstallIO)
    requires Owned(o) && MayInstall(o, l) && io.now <= io.beat.at && Install(o, l, expires, io).1 && Seconds(expires, io.now) >= 1
    ensures var r := Install(o, l, expires, io).0;
      && r.lease == l && r.expires == expires && r.world.addresses.Keys == {(l.address.value, l.prefix)} && r.world.route == l.router
      && r.world.handoff.Some? && r.world.handoff.value.address == l.address && r.world.handoff.value.prefix == l.prefix
      && r.world.handoff.value.router == l.router
  {
    hide Orderly, After, Seconds, Withdraw;
    InstallKeeps(o, l, expires, io);
    WithdrawLease(o, io.withdraw);
  }
}
