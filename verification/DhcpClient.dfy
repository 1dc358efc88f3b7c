/** The DHCP client as a state machine: one pass of its loop is three steps - keeping the lease alive, sending what
    is due, and reacting to one packet. Clocks, entropy, packets and the success of every call are inputs. */
module DhcpClient {
  import opened Basics
  import opened NetConfig
  import opened Ipv4
  import opened Dhcp
  import opened LeaseOwner

  // ---- Address conflicts ---------------------------------------------------------------------------

  function ArpPacket(mac: Mac, ip: Ip, probe: bool): (p: seq<Byte>)
    ensures |p| == 28
  {
    [0, 1, 8, 0, 6, 4, 0, 1] + mac + (if probe then Zeros(4) else U32(ip)) + Zeros(6) + U32(ip)
  }

  /** Somebody else uses the address, or - while probing - probes for it too. */
  predicate ArpConflict(p: seq<Byte>, mac: Mac, ip: Ip, probing: bool) {
    && |p| >= 28 && p[..7] == [0, 1, 8, 0, 6, 4, 0] && (p[7] == 1 || p[7] == 2) && p[8..14] != mac
    && (p[14..18] == U32(ip) || (probing && p[14..18] == Zeros(4) && p[24..28] == U32(ip)))
  }

  /** A host never conflicts with itself; another host's announcement of the address always conflicts, and its probe
      does exactly while this host is probing. */
  lemma ArpDetection(mine: Mac, theirs: Mac, ip: Ip, other: Ip, probe: bool, probing: bool)
    requires ip != 0 && other != 0
    ensures ArpConflict(ArpPacket(theirs, other, probe), mine, ip, probing) <==>
            theirs != mine && other == ip && (!probe || probing)
  {
    hide Zeros;
    var p := ArpPacket(theirs, other, probe);
    var sender := if probe then Zeros(4) else U32(other);
    assert p[..7] == [0, 1, 8, 0, 6, 4, 0] && p[8..14] == theirs && p[14..18] == sender && p[24..28] == U32(other);
    IpBytesDiffer(ip, other);
    IpBytesDiffer(ip, 0);
    ZeroIp();
  }

  lemma IpBytesDiffer(a: Ip, b: Ip)
    ensures U32(a) == U32(b) <==> a == b
  {
    U32RoundTrip(a);
    U32RoundTrip(b);
  }

  lemma ZeroIp()
    ensures Zeros(4) == U32(0)
  {
  }

  // ---- Probing -------------------------------------------------------------------------------------

  /** One pass of the probing loop: the clock readings, the random byte, and what happened to the packets. */
  datatype ProbeTick = ProbeTick(now: int, entropy: Option<Byte>, after: int, sent: bool, packet: Option<seq<Byte>>)

  datatype ProbeResult = Clear | Conflict | Cancelled | Broken

  const PROBES := 3

  /** Three probes one to two seconds apart, then two seconds of silence; the script ends when the run is cancelled. */
  function Probing(ticks: seq<ProbeTick>, mac: Mac, ip: Ip, sent: nat, next: int): ProbeResult
    decreases |ticks|
  {
    if ticks == [] then Cancelled
    else
      var t := ticks[0];
      if t.now > next && sent == PROBES then Clear
      else if t.now > next && (!t.sent || t.entropy.None?) then Broken
      else if t.packet.None? then Broken
      else if ArpConflict(t.packet.value, mac, ip, true) then Conflict
      else if t.now <= next then Probing(ticks[1..], mac, ip, sent, next)
      else Probing(ticks[1..], mac, ip, sent + 1,
                   if sent + 1 == PROBES then t.after + 2 * SECOND
                   else t.after + SECOND + t.entropy.value * SECOND / 256)
  }

  function Probe(ticks: seq<ProbeTick>, mac: Mac, ip: Ip, first: Option<Byte>, start: int): ProbeResult {
    if first.None? then Broken else Probing(ticks, mac, ip, 0, start + first.value * SECOND / 256)
  }

  method ProbeAddress(ticks: seq<ProbeTick>, mac: Mac, ip: Ip, first: Option<Byte>, start: int) returns (r: ProbeResult)
    ensures r == Probe(ticks, mac, ip, first, start)
  {
    if first.None? {
      return Broken;
    }
    var next, sent := start + first.value * SECOND / 256, 0;
    for i := 0 to |ticks|
      invariant Probing(ticks[i..], mac, ip, sent, next) == Probe(ticks, mac, ip, first, start)
    {
      var t := ticks[i];
      assert ticks[i..][0] == t && ticks[i..][1..] == ticks[i + 1..];
      if t.now > next {
        if sent == PROBES {
          return Clear;
        }
        if !t.sent || t.entropy.None? {
          return Broken;
        }
        sent := sent + 1;
        next := if sent == PROBES then t.after + 2 * SECOND else t.after + SECOND + t.entropy.value * SECOND / 256;
      }
      if t.packet.None? {
        return Broken;
      }
      if ArpConflict(t.packet.value, mac, ip, true) {
        return Conflict;
      }
    }
    return Cancelled;
  }

  /** Packets read while the probe ran. */
  predicate Quiet(t: ProbeTick, mac: Mac, ip: Ip) {
    t.packet.Some? && !ArpConflict(t.packet.value, mac, ip, true)
  }

  predicate GotOutAt(ticks: seq<ProbeTick>, i: nat) {
    i < |ticks| && ticks[i].sent
  }

  /** The second of two probes was sent more than a second after the first had got out. */
  predicate SecondApart(ticks: seq<ProbeTick>, i: nat, j: nat) {
    i < j < |ticks| && ticks[j].now > ticks[i].after + SECOND
  }

  /** Probes got out at these passes, the first of them after the given time, each more than a second after the one before,
      and pass n comes more than two seconds after the last. */
  ghost predicate SentAt(ticks: seq<ProbeTick>, from: nat, next: int, n: nat, at: seq<nat>) {
    && from <= n < |ticks| && (forall k :: 0 <= k < |at| ==> from <= at[k] < n && GotOutAt(ticks, at[k]))
    && (forall k :: 0 <= k < |at| - 1 ==> SecondApart(ticks, at[k], at[k + 1]))
    && (if at == [] then ticks[n].now > next
        else ticks[at[0]].now > next && ticks[n].now > ticks[at[|at| - 1]].after + 2 * SECOND)
  }

  /** The probe that goes on at pass from ended at pass n: nothing read in between conflicted, and the remaining ones of the
      three probes had got out in time. */
  ghost predicate ClearAt(ticks: seq<ProbeTick>, from: nat, mac: Mac, ip: Ip, sent: nat, next: int, n: nat,
                          at: seq<nat>) {
    SentAt(ticks, from, next, n, at) && |at| == PROBES - sent && forall i :: from <= i < n ==> Quiet(ticks[i], mac, ip)
  }

  lemma {:induction false} ClearMeansQuiet(ticks: seq<ProbeTick>, from: nat, mac: Mac, ip: Ip, sent: nat, next: int)
      returns (n: nat, at: seq<nat>)
    requires from <= |ticks| && sent <= PROBES && Probing(ticks[from..], mac, ip, sent, next) == Clear
    ensures ClearAt(ticks, from, mac, ip, sent, next, n, at)
    decreases |ticks| - from
  {
    hide ArpConflict;
    var t := ticks[from..][0];
    assert t == ticks[from] && ticks[from..][1..] == ticks[from + 1..];
    if t.now > next && sent == PROBES {
      n, at := from, [];
    } else if t.now <= next {
      n, at := ClearMeansQuiet(ticks, from + 1, mac, ip, sent, next);
    } else {
      var next' := if sent + 1 == PROBES then t.after + 2 * SECOND else t.after + SECOND + t.entropy.value * SECOND / 256;
      var later;
      n, later := ClearMeansQuiet(ticks, from + 1, mac, ip, sent + 1, next');
      at := [from] + later;
      OneMoreProbe(ticks, from, next, next', n, later);
    }
  }

  lemma OneMoreProbe(ticks: seq<ProbeTick>, from: nat, next: int, next': int, n: nat, later: seq<nat>)
    requires GotOutAt(ticks, from) && ticks[from].now > next && SentAt(ticks, from + 1, next', n, later)
    requires next' >= ticks[from].after + SECOND && (later == [] ==> next' == ticks[from].after + 2 * SECOND)
    ensures SentAt(ticks, from, next, n, [from] + later)
  {
    hide GotOutAt;
    var at := [from] + later;
    forall k | 0 <= k < |at| - 1
      ensures SecondApart(ticks, at[k], at[k + 1])
    {
      assert k > 0 ==> SecondApart(ticks, later[k - 1], later[k]);
    }
  }

  // ---- The state of the loop -----------------------------------------------------------------------

  datatype Phase = Init | Selecting | Requesting | Bound | Renewing | Rebinding

  datatype Client = Client(owner: Owner, phase: Phase, xid: Xid, offered: Lease, acquired: int, attempt: int,
                           next: int, heartbeat: int, retry: int)

  const FIRST_RETRY := 4 * SECOND
  const MAX_RETRY := 16 * SECOND
  const REQUEST_TIMEOUT := 8 * SECOND
  const MARGIN := 5 * SECOND

  const NEW_CLIENT := Client(NEW_OWNER, Init, [0, 0, 0, 0], NO_LEASE, 0, 0, 0, 0, FIRST_RETRY)

  /** Everything one pass learns from outside. */
  datatype Tick = Tick(
    now: int, expire: WithdrawIO, beat: BeatIO, entropy: Option<Xid>, arp: Option<seq<Byte>>, declined: bool, sent: bool,
    packet: Option<seq<Byte>>, requestAt: int, requestSent: bool, nak: WithdrawIO, nakAt: int,
    change: WithdrawIO, probe: seq<ProbeTick>, first: Option<Byte>, probeAt: int, paused: bool,
    checkAt: int, install: InstallIO, boundAt: int, announced: bool)

  /** Go on with the next step, start the next pass, or return. */
  datatype Flow = Go | Again | Stop(failed: bool)

  function Log(c: Client, a: Action): Client {
    c.(owner := Do(c.owner, a))
  }

  /** A message in its broadcast envelope. */
  function Broadcast(message: seq<Byte>): seq<Byte> {
    Envelope(0, BROADCAST, CLIENT_PORT, SERVER_PORT, message)
  }

  // ---- Keeping the lease ---------------------------------------------------------------------------

  function ToInit(c: Client): Client {
    c.(phase := Init, next := 0)
  }

  function ExpireLease(c: Client, t: Tick): (Client, Flow) {
    if t.now < c.owner.expires then (c, Go)
    else
      var (o, ok) := Withdraw(c.owner, t.expire);
      if ok then (ToInit(c.(owner := o)), Go) else (c.(owner := o), Stop(true))
  }

  function BeatLease(c: Client, t: Tick): (Client, Flow) {
    if t.now <= c.heartbeat then (c, Go)
    else
      var (o, ok) := Heartbeat(c.owner, t.now, t.beat);
      if !ok then (c.(owner := o), Stop(true))
      else
        var c1 := c.(owner := o, heartbeat := t.now + SECOND);
        (if o.lease.address.None? then ToInit(c1) else c1, Go)
  }

  /** Starts a renewal phase under a new transaction. */
  function Renew(c: Client, t: Tick, phase: Phase): (Client, Flow) {
    var c1 := c.(phase := phase, next := 0, attempt := t.now);
    if t.entropy.None? then (c1, Stop(true)) else (c1.(xid := t.entropy.value), Go)
  }

  function RenewLease(c: Client, t: Tick): (Client, Flow) {
    var (o, elapsed) := (c.owner, t.now - c.acquired);
    if o.lease.address.None? then (c, Go)
    else if elapsed >= o.lease.rebind && c.phase != Rebinding then Renew(c, t, Rebinding)
    else if elapsed >= o.lease.renew && c.phase == Bound then Renew(c, t, Renewing)
    else (c, Go)
  }

  function DeclineMessage(c: Client, mac: Mac, l: Lease, at: int, out: bool): (a: Action)
    ensures a.Sent? && a.kind == DECLINE
  {
    Sent(DECLINE, c.xid, at, Broadcast(Packet(DECLINE, c.xid, mac, l.address, l.server, None)), out)
  }

  function GuardAddress(c: Client, mac: Mac, t: Tick): (Client, Flow) {
    if t.arp.None? then (c, Stop(true))
    else
      var l := c.owner.lease;
      if l.address.Some? && ArpConflict(t.arp.value, mac, l.address.value, false) then
        (Log(c, DeclineMessage(c, mac, l, t.now, t.declined)), Stop(true))
      else (c, Go)
  }

  function KeepLease(c: Client, mac: Mac, t: Tick): (Client, Flow) {
    if c.owner.lease.address.None? then (c, Go)
    else
      var (c1, f1) := ExpireLease(c, t);
      if f1 != Go then (c1, f1)
      else
        var (c2, f2) := BeatLease(c1, t);
        if f2 != Go then (c2, f2)
        else
          var (c3, f3) := RenewLease(c2, t);
          if f3 != Go then (c3, f3) else GuardAddress(c3, mac, t)
  }

  // ---- Sending -------------------------------------------------------------------------------------

  function Backoff(c: Client, now: int): Client {
    c.(next := now + c.retry, retry := if c.retry < MAX_RETRY then c.retry * 2 else c.retry)
  }

  function Discover(c: Client, mac: Mac, t: Tick): (Client, Flow) {
    if c.phase == Init && t.entropy.None? then (c, Stop(true))
    else
      var c1 := if c.phase == Init then c.(xid := t.entropy.value, retry := FIRST_RETRY) else c;
      var c2 := Log(c1.(phase := Selecting, attempt := t.now),
                    Sent(DISCOVER, c1.xid, t.now, Broadcast(Packet(DISCOVER, c1.xid, mac, None, None, None)), t.sent));
      if t.sent then (Backoff(c2, t.now), Go) else (c2, Stop(true))
  }

  /** Asks the leasing server directly; a failed write is ignored. */
  function AskServer(c: Client, mac: Mac, t: Tick): (Client, Flow) {
    var message := Packet(REQUEST, c.xid, mac, None, None, c.owner.lease.address);
    (Backoff(Log(c, Sent(REQUEST, c.xid, t.now, message, t.sent)), t.now), Go)
  }

  /** Asks every server, from the leased address. */
  function AskAnyone(c: Client, mac: Mac, t: Tick): (Client, Flow) {
    var ip := c.owner.lease.address;
    var source := if ip.Some? then ip.value else 0;
    var message := Packet(REQUEST, c.xid, mac, None, None, ip);
    var c1 := Log(c, Sent(REQUEST, c.xid, t.now, Envelope(source, BROADCAST, CLIENT_PORT, SERVER_PORT, message), t.sent));
    if t.sent then (Backoff(c1, t.now), Go) else (c1, Stop(true))
  }

  function Transmit(c: Client, mac: Mac, t: Tick): (Client, Flow) {
    if t.now < c.next then (c, Go)
    else match c.phase
      case Init => Discover(c, mac, t)
      case Selecting => Discover(c, mac, t)
      case Requesting => (ToInit(c), Again)
      case Renewing => AskServer(c, mac, t)
      case Rebinding => AskAnyone(c, mac, t)
      case Bound => (Backoff(c, t.now), Go)
  }

  // ---- Receiving -----------------------------------------------------------------------------------

  /** The server message in this pass's packet, if it is one. */
  function Message(c: Client, mac: Mac, t: Tick): Option<(int, Lease)> {
    if t.packet.None? then None
    else match DhcpPayload(t.packet.value)
      case None => None
      case Some(payload) => Reply(payload, c.xid, mac)
  }

  /** The server that this phase listens to: the one that made the offer or gave the lease, or any when rebinding. */
  predicate FromOurServer(c: Client, l: Lease) {
    && c.phase in {Requesting, Renewing, Rebinding}
    && (c.phase == Requesting ==> l.server == c.offered.server)
    && (c.phase == Renewing ==> l.server == c.owner.lease.server)
  }

  predicate Grants(c: Client, kind: int, l: Lease) {
    kind == ACK && FromOurServer(c, l) && (c.phase == Requesting ==> l.address == c.offered.address)
  }

  /** Takes an offer and requests it. */
  function TakeOffer(c: Client, mac: Mac, t: Tick, l: Lease): (Client, Flow) {
    var c1 := c.(offered := l, phase := Requesting, attempt := t.requestAt, next := t.requestAt + REQUEST_TIMEOUT);
    (Log(c1, Sent(REQUEST, c.xid, t.requestAt, Broadcast(Packet(REQUEST, c.xid, mac, l.address, l.server, None)), t.requestSent)),
     if t.requestSent then Again else Stop(true))
  }

  function Refused(c: Client, t: Tick): (Client, Flow) {
    var (o, ok) := Withdraw(c.owner, t.nak);
    if ok then (c.(owner := o, phase := Init, next := t.nakAt + SECOND), Again) else (c.(owner := o), Stop(true))
  }

  /** Withdraws the old network and probes the new address. */
  function Clearance(c: Client, mac: Mac, t: Tick, l: Lease): (Client, Flow)
    requires l.address.Some?
  {
    var (o, ok) := Withdraw(c.owner, t.change);
    var c1 := c.(owner := o);
    if !ok then (c1, Stop(true))
    else match Probe(t.probe, mac, l.address.value, t.first, t.probeAt)
      case Clear => (Log(c1, Probed(l.address.value)), Go)
      case Cancelled => (c1, Stop(false))
      case Broken => (c1, Stop(true))
      case Conflict =>
        var c2 := Log(c1, DeclineMessage(c1, mac, l, t.probeAt, t.declined));
        if t.paused then (ToInit(c2), Again) else (c2, Stop(false))
  }

  /** Installs a granted lease, unless less than five seconds of it are left. */
  function Accept(c: Client, mac: Mac, t: Tick, l: Lease, changed: bool): (Client, Flow)
    requires l.address.Some?
  {
    var expires := c.attempt + l.duration;
    if t.checkAt + MARGIN >= expires then (ToInit(c), Again)
    else
      var (o, ok) := Install(c.owner, l, expires, t.install);
      if !ok then (c.(owner := o), Stop(true))
      else
        var c1 := c.(owner := o, acquired := c.attempt, phase := Bound, next := t.boundAt + l.renew, retry := FIRST_RETRY);
        (c1, if changed && !t.announced then Stop(true) else Again)
  }

  function Granted(c: Client, mac: Mac, t: Tick, l: Lease): (Client, Flow)
    requires l.address.Some?
  {
    if l.SameNet(c.owner.lease) then Accept(c, mac, t, l, false)
    else
      var (c1, f1) := Clearance(c, mac, t, l);
      if f1 != Go then (c1, f1) else Accept(c1, mac, t, l, true)
  }

  function Receive(c: Client, mac: Mac, t: Tick): (r: (Client, Flow))
    ensures r.1 != Go
  {
    if t.packet.None? then (c, Stop(true))
    else match Message(c, mac, t)
      case None => (c, Again)
      case Some((kind, l)) =>
        if c.phase == Selecting && kind == OFFER then TakeOffer(c, mac, t, l)
        else if !FromOurServer(c, l) then (c, Again)
        else if kind == NAK then Refused(c, t)
        else if !Grants(c, kind, l) then (c, Again)
        else
          MessageIsSound(c, mac, t);
          Granted(c, mac, t, l)
  }

  lemma MessageIsSound(c: Client, mac: Mac, t: Tick)
    requires Message(c, mac, t).Some?
    ensures var (kind, l) := Message(c, mac, t).value; kind != NAK ==> SoundLease(l) && l.address.Some? && l.router.Some?
  {
    hide ValidAddress;
    var payload := DhcpPayload(t.packet.value).value;
    ReplyIsSound(payload, c.xid, mac);
    if Message(c, mac, t).value.0 != NAK {
      PrefixInRange(Message(c, mac, t).value.1);
    }
  }

  // ---- One pass and whole runs ---------------------------------------------------------------------

  /** The state in which this pass reads its packet, or where it ends before that. */
  function BeforeReceive(c: Client, mac: Mac, t: Tick): (Client, Flow) {
    var (c1, f1) := KeepLease(c, mac, t);
    if f1 != Go then (c1, f1) else Transmit(c1, mac, t)
  }

  function Pass(c: Client, mac: Mac, t: Tick): (Client, Flow) {
    var (c1, f1) := BeforeReceive(c, mac, t);
    if f1 != Go then (c1, f1) else Receive(c1, mac, t)
  }

  /** The client after a script of passes, and whether it is still running. */
  function RunPasses(c: Client, mac: Mac, ticks: seq<Tick>): (Client, Flow)
    decreases |ticks|
  {
    if ticks == [] then (c, Again)
    else
      var (c1, f1) := Pass(c, mac, ticks[0]);
      if f1 != Again then (c1, f1) else RunPasses(c1, mac, ticks[1..])
  }
}
