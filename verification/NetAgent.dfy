/** The network agent as it is written: an owner object and a DHCP loop that update their fields step by step. Every
    method is proved to take exactly the step that LeaseOwner and DhcpClient specify. */
module NetAgent {
  import opened Basics
  import opened NetConfig
  import opened Ipv4
  import opened Dhcp
  import opened LeaseOwner
  import opened DhcpClient
  import opened LeaseRuns
  import opened RefreshRuns

  class AddressOwner {
    var lease: Lease
    var expires: int
    var status: Status
    var world: World
    ghost var log: seq<Action>

    ghost function View(): Owner
      reads this
    {
      Owner(lease, expires, status, world, log)
    }

    constructor ()
      ensures View() == NEW_OWNER
    {
      lease, expires, status, world, log := NO_LEASE, 0, NO_STATUS, NOTHING, [];
    }

    /** Performs one action outside. */
    method Act(a: Action)
      modifies this
      ensures View() == Do(old(View()), a)
    {
      world := Perform(world, a);
      log := log + [a];
    }

    method Withdraw(io: WithdrawIO) returns (ok: bool)
      modifies this
      ensures (View(), ok) == LeaseOwner.Withdraw(old(View()), io)
    {
      Act(RemoveHandoff(io.removed));
      if !io.removed {
        return false;
      }
      if lease.address.None? {
        return true;
      }
      Act(DeleteRoute(lease.router, io.route));
      Act(DeleteAddress(Held(lease), io.address));
      lease := NO_LEASE;
      return io.route == Done && io.address == Done;
    }

    method Heartbeat(now: int, io: BeatIO) returns (ok: bool)
      modifies this
      ensures (View(), ok) == LeaseOwner.Heartbeat(old(View()), now, io)
    {
      if lease.address.None? {
        return true;
      }
      var left := MAX_LIFETIME * SECOND;
      if expires != 0 && expires - now < left {
        left := expires - now;
      }
      var seconds := (if left >= 0 then left / SECOND else -(-left / SECOND)) % U32_WRAP;
      if seconds < 1 {
        ok := Withdraw(io.withdraw);
        return;
      }
      Act(SetAddress(Held(lease), Grant(io.at, seconds), io.address));
      if io.address != Done {
        return false;
      }
      status := status.(sequence := (status.sequence + 1) % U64_WRAP);
      status := status.(validUntil := now + seconds * SECOND - HALF);
      Act(WriteHandoff(status, io.written));
      return io.written;
    }

    method Install(l: Lease, until: int, io: InstallIO) returns (ok: bool)
      requires l.address.Some?
      modifies this
      ensures (View(), ok) == LeaseOwner.Install(old(View()), l, until, io)
    {
      if !io.overlapFree {
        return false;
      }
      if !l.SameNet(lease) {
        ok := Withdraw(io.withdraw);
        if !ok || io.generation.None? {
          return false;
        }
        status := Status(io.generation.value, 0, l.address, l.prefix, l.router, 0);
        Act(SetAddress(Held(l), Grant(io.at, MAX_LIFETIME), io.address));
        if io.address != Done {
          return false;
        }
        Act(AddRoute(l.router, io.route));
        if io.route != Done {
          Act(DeleteAddress(Held(l), io.undo));
          return false;
        }
      }
      lease := l;
      expires := until;
      ok := Heartbeat(io.now, io.beat);
    }
  }

  class DhcpAgent {
    const owner: AddressOwner
    const mac: Mac
    var phase: Phase
    var xid: Xid
    var offered: Lease
    var acquired: int
    var attempt: int
    var next: int
    var heartbeat: int
    var retry: int

    ghost function View(): Client
      reads this, owner
    {
      Client(owner.View(), phase, xid, offered, acquired, attempt, next, heartbeat, retry)
    }

    constructor (owner: AddressOwner, mac: Mac)
      ensures this.owner == owner && this.mac == mac && View() == NEW_CLIENT.(owner := owner.View())
    {
      this.owner, this.mac := owner, mac;
      phase, xid, offered := Init, [0, 0, 0, 0], NO_LEASE;
      acquired, attempt, next, heartbeat, retry := 0, 0, 0, 0, FIRST_RETRY;
    }

    /** Hands a message to the network; out says whether the write succeeded. */
    method Send(kind: Byte, at: int, wire: seq<Byte>, out: bool)
      modifies owner
      ensures View() == Log(old(View()), Sent(kind, xid, at, wire, out))
    {
      owner.Act(Sent(kind, xid, at, wire, out));
    }

    method SendBroadcast(kind: Byte, at: int, requested: Option<Ip>, server: Option<Ip>, out: bool)
      modifies owner
      ensures View() == Log(old(View()), Sent(kind, xid, at, Broadcast(Packet(kind, xid, mac, requested, server, None)), out))
    {
      hide Packet, Envelope;
      var message := BuildPacket(kind, xid, mac, requested, server, None);
      var wire := Ipv4Broadcast(message);
      Send(kind, at, wire, out);
    }

    method KeepLease(t: Tick) returns (f: Flow)
      modifies this, owner
      ensures (View(), f) == DhcpClient.KeepLease(old(View()), mac, t)
    {
      hide LeaseOwner.Withdraw, LeaseOwner.Heartbeat, RenewLease, GuardAddress;
      if owner.lease.address.None? {
        return Go;
      }
      if t.now >= owner.expires {
        var ok := owner.Withdraw(t.expire);
        if !ok {
          return Stop(true);
        }
        phase, next := Init, 0;
      }
      if t.now > heartbeat {
        var ok := owner.Heartbeat(t.now, t.beat);
        if !ok {
          return Stop(true);
        }
        heartbeat := t.now + SECOND;
        if owner.lease.address.None? {
          phase, next := Init, 0;
        }
      }
      f := Renewals(t);
      if f != Go {
        return;
      }
      f := Guard(t);
    }

    /** Gives the address up when another host announces it. */
    method Guard(t: Tick) returns (f: Flow)
      modifies owner
      ensures (View(), f) == GuardAddress(old(View()), mac, t)
    {
      hide Packet, Broadcast, ArpConflict;
      if t.arp.None? {
        return Stop(true);
      }
      if owner.lease.address.Some? && ArpConflict(t.arp.value, mac, owner.lease.address.value, false) {
        SendBroadcast(DECLINE, t.now, owner.lease.address, owner.lease.server, t.declined);
        return Stop(true);
      }
      return Go;
    }

    method Renewals(t: Tick) returns (f: Flow)
      modifies this
      ensures (View(), f) == RenewLease(old(View()), t)
    {
      if owner.lease.address.Some? && t.now - acquired >= owner.lease.rebind && phase != Rebinding {
        phase, next, attempt := Rebinding, 0, t.now;
        if t.entropy.None? {
          return Stop(true);
        }
        xid := t.entropy.value;
      }
      if owner.lease.address.Some? && t.now - acquired >= owner.lease.renew && phase == Bound {
        phase, next, attempt := Renewing, 0, t.now;
        if t.entropy.None? {
          return Stop(true);
        }
        xid := t.entropy.value;
      }
      return Go;
    }

    method Transmit(t: Tick) returns (f: Flow)
      modifies this, owner
      ensures (View(), f) == DhcpClient.Transmit(old(View()), mac, t)
    {
      hide Discover, AskServer, AskAnyone;
      if t.now < next {
        return Go;
      }
      if phase == Init || phase == Selecting {
        f := SendDiscovery(t);
      } else if phase == Requesting {
        phase, next := Init, 0;
        return Again;
      } else if phase == Renewing || phase == Rebinding {
        f := SendRenewal(t);
      } else {
        BackOff(t.now);
        return Go;
      }
    }

    method BackOff(now: int)
      modifies this
      ensures View() == Backoff(old(View()), now)
    {
      next := now + retry;
      if retry < MAX_RETRY {
        retry := retry * 2;
      }
    }

    method SendDiscovery(t: Tick) returns (f: Flow)
      modifies this, owner
      ensures (View(), f) == Discover(old(View()), mac, t)
    {
      hide Packet, Broadcast, Backoff;
      if phase == Init {
        if t.entropy.None? {
          return Stop(true);
        }
        xid, retry := t.entropy.value, FIRST_RETRY;
      }
      phase, attempt := Selecting, t.now;
      SendBroadcast(DISCOVER, t.now, None, None, t.sent);
      if !t.sent {
        return Stop(true);
      }
      BackOff(t.now);
      return Go;
    }

    method SendRenewal(t: Tick) returns (f: Flow)
      modifies this, owner
      ensures (View(), f) == if old(phase) == Renewing then AskServer(old(View()), mac, t) else AskAnyone(old(View()), mac, t)
    {
      hide Packet, Envelope, Backoff;
      var message := BuildPacket(REQUEST, xid, mac, None, None, owner.lease.address);
      if phase == Renewing {
        Send(REQUEST, t.now, message, t.sent);
      } else {
        var wire := Ipv4Broadcast(message);
        wire := FromSource(wire, if owner.lease.address.Some? then owner.lease.address.value else 0, message);
        Send(REQUEST, t.now, wire, t.sent);
        if !t.sent {
          return Stop(true);
        }
      }
      BackOff(t.now);
      return Go;
    }

    method Receive(t: Tick) returns (f: Flow)
      modifies this, owner
      ensures (View(), f) == DhcpClient.Receive(old(View()), mac, t)
    {
      hide LeaseOwner.Withdraw, Granted, Packet, Broadcast, DhcpPayload, Reply, SoundLease;
      if t.packet.None? {
        return Stop(true);
      }
      var payload := DhcpPayload(t.packet.value);
      if payload.None? {
        return Again;
      }
      var message := ParseReply(payload.value, xid, mac);
      if message.None? {
        return Again;
      }
      MessageIsSound(View(), mac, t);
      var (kind, l) := message.value;
      if phase == Selecting && kind == OFFER {
        offered, phase, attempt := l, Requesting, t.requestAt;
        next := attempt + REQUEST_TIMEOUT;
        SendBroadcast(REQUEST, attempt, l.address, l.server, t.requestSent);
        return if t.requestSent then Again else Stop(true);
      }
      if phase != Requesting && phase != Renewing && phase != Rebinding {
        return Again;
      }
      if (phase == Requesting && l.server != offered.server) || (phase == Renewing && l.server != owner.lease.server) {
        return Again;
      }
      if kind == NAK {
        var ok := owner.Withdraw(t.nak);
        if !ok {
          return Stop(true);
        }
        phase, next := Init, t.nakAt + SECOND;
        return Again;
      }
      if kind != ACK || (phase == Requesting && l.address != offered.address) {
        return Again;
      }
      f := Grant(t, l);
    }

    method Grant(t: Tick, l: Lease) returns (f: Flow)
      requires l.address.Some?
      modifies this, owner
      ensures (View(), f) == Granted(old(View()), mac, t, l)
    {
      hide LeaseOwner.Withdraw, LeaseOwner.Install, Probe, Packet, Broadcast;
      var changed := !l.SameNet(owner.lease);
      if changed {
        var gone := owner.Withdraw(t.change);
        if !gone {
          return Stop(true);
        }
        var result := ProbeAddress(t.probe, mac, l.address.value, t.first, t.probeAt);
        match result {
          case Clear => owner.Act(Probed(l.address.value));
          case Cancelled => return Stop(false);
          case Broken => return Stop(true);
          case Conflict =>
            SendBroadcast(DECLINE, t.probeAt, l.address, l.server, t.declined);
            if !t.paused {
              return Stop(false);
            }
            phase, next := Init, 0;
            return Again;
        }
      }
      var until := attempt + l.duration;
      if t.checkAt + MARGIN >= until {
        phase, next := Init, 0;
        return Again;
      }
      var ok := owner.Install(l, until, t.install);
      if !ok {
        return Stop(true);
      }
      acquired, phase, next, retry := attempt, Bound, t.boundAt + l.renew, FIRST_RETRY;
      return if changed && !t.announced then Stop(true) else Again;
    }

    /** The loop, until it returns or the script of passes ends with a cancellation, and the final withdrawal. */
    method Run(ticks: seq<Tick>, last: WithdrawIO) returns (failed: bool)
      modifies this, owner
      ensures var (end, f) := RunPasses(old(View()), mac, ticks);
        && View() == end.(owner := LeaseOwner.Withdraw(end.owner, last).0)
        && (failed <==> f == Stop(true))
      ensures old(Owned(owner.View())) && (forall i :: 0 <= i < |ticks| ==> InOrder(ticks[i])) ==>
                && Orderly(owner.log) && owner.world == After(owner.log)
                && (Disciplined(owner.log) <==> Disciplined(old(owner.log)) && RunInTime(old(View()), mac, ticks))
    {
      hide LeaseOwner.Withdraw, DhcpClient.KeepLease, DhcpClient.Transmit, DhcpClient.Receive, Owned, Orderly;
      hide After, Disciplined, RunInTime;
      failed := false;
      var running := true;
      ghost var start := View();
      for i := 0 to |ticks|
        invariant running
        invariant RunPasses(start, mac, ticks) == RunPasses(View(), mac, ticks[i..])
      {
        assert ticks[i..][0] == ticks[i] && ticks[i..][1..] == ticks[i + 1..];
        var f := KeepLease(ticks[i]);
        if f == Go {
          f := Transmit(ticks[i]);
        }
        if f == Go {
          f := Receive(ticks[i]);
        }
        if f != Again {
          failed, running := f == Stop(true), false;
          break;
        }
      }
      EndIsLogged(start, mac, ticks, last);
      var _ := owner.Withdraw(last);
    }
  }

  /** A run from a sound state stays orderly, its final withdrawal included, and is disciplined by the kernel's clock exactly
      when its refreshes are in time. */
  lemma EndIsLogged(c: Client, mac: Mac, ticks: seq<Tick>, last: WithdrawIO)
    ensures Owned(c.owner) && (forall i :: 0 <= i < |ticks| ==> InOrder(ticks[i])) ==>
              var o := LeaseOwner.Withdraw(RunPasses(c, mac, ticks).0.owner, last).0;
              LogInv(o) && (Disciplined(o.log) <==> Disciplined(c.owner.log) && RunInTime(c, mac, ticks))
  {
    hide Owned, RunPasses, RunInTime, Orderly, Disciplined, RefreshedInTime, After;
    if Owned(c.owner) && forall i :: 0 <= i < |ticks| ==> InOrder(ticks[i]) {
      var end := RunPasses(c, mac, ticks).0.owner;
      RunKeeps(c, mac, ticks);
      WithdrawKeepsLog(end, last);
      RunIsDisciplined(c, mac, ticks);
      WithdrawInTime(end, last);
      DisciplineIs(end.log);
      DisciplineIs(LeaseOwner.Withdraw(end, last).0.log);
    }
  }
}
