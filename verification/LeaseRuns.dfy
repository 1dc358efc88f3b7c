/** What holds in every run of the DHCP client: the order of its actions, the soundness of the handoff file, which
    acknowledgements count, how long a lease may be believed, and exactly when a phase loses its lease. */
module LeaseRuns {
  import opened Basics
  import opened NetConfig
  import opened Ipv4
  import opened Dhcp
  import opened LeaseOwner
  import opened DhcpClient

  /** The kernel handles a request no earlier than the clock was read for it. */
  predicate InOrder(t: Tick) {
    t.now <= t.beat.at && t.install.now <= t.install.beat.at
  }

  // ---- Discipline and handoff ----------------------------------------------------------------------

  /** A step that does not end the run keeps the owner sound; one that does keeps at least the order of actions. */
  ghost predicate Keeps(r: (Client, Flow)) {
    LogInv(r.0.owner) && (!r.1.Stop? ==> Owned(r.0.owner))
  }

  lemma ExpireKeeps(c: Client, t: Tick)
    requires Owned(c.owner)
    ensures Keeps(ExpireLease(c, t))
  {
    hide Owned, LogInv, Withdraw;
    WithdrawKeeps(c.owner, t.expire);
    OwnedIsLogged(c.owner);
  }

  lemma OwnedIsLogged(o: Owner)
    requires Owned(o)
    ensures LogInv(o)
  {
  }

  lemma BeatKeeps(c: Client, t: Tick)
    requires Owned(c.owner) && InOrder(t)
    ensures Keeps(BeatLease(c, t))
  {
    hide LogInv, Heartbeat;
    HeartbeatKeeps(c.owner, t.now, t.beat);
  }

  /** Sending a message changes nothing outside. */
  lemma SentKeeps(c: Client, a: Action)
    requires a.Sent?
    ensures LogInv(c.owner) ==> LogInv(Log(c, a).owner)
    ensures Owned(c.owner) ==> Owned(Log(c, a).owner)
  {
    hide After, Orderly;
    if LogInv(c.owner) {
      DoKeepsLog(c.owner, a);
    }
  }

  lemma KeepLeaseKeeps(c: Client, mac: Mac, t: Tick)
    requires Owned(c.owner) && InOrder(t)
    ensures Keeps(KeepLease(c, mac, t))
  {
    hide Owned, LogInv, ExpireLease, BeatLease, ArpConflict, Packet, Broadcast;
    OwnedIsLogged(c.owner);
    if c.owner.lease.address.Some? {
      var (c1, f1) := ExpireLease(c, t);
      ExpireKeeps(c, t);
      if f1 == Go {
        var (c2, f2) := BeatLease(c1, t);
        BeatKeeps(c1, t);
        if f2 == Go {
          var (c3, f3) := RenewLease(c2, t);
          if f3 == Go {
            SentKeeps(c3, DeclineMessage(c3, mac, c3.owner.lease, t.now, t.declined));
          }
        }
      }
    }
  }

  lemma TransmitKeeps(c: Client, mac: Mac, t: Tick)
    requires Owned(c.owner)
    ensures Keeps(Transmit(c, mac, t))
  {
    hide Owned, LogInv, Packet, Broadcast, Envelope;
    OwnedIsLogged(c.owner);
    var c' := Transmit(c, mac, t).0;
    if c'.owner.log != c.owner.log {
      var a := c'.owner.log[|c'.owner.log| - 1];
      SentKeeps(c, a);
    }
  }

  lemma ClearanceKeeps(c: Client, mac: Mac, t: Tick, l: Lease)
    requires Owned(c.owner) && l.address.Some?
    ensures var (c', f) := Clearance(c, mac, t, l);
      && Keeps((c', f))
      && (f == Go ==> MayInstall(c'.owner, l) && !l.SameNet(c'.owner.lease)
                      && c'.attempt == c.attempt && c'.phase == c.phase)
  {
    hide Probe, After, Orderly, Packet, Broadcast;
    WithdrawKeeps(c.owner, t.change);
    var (o, ok) := Withdraw(c.owner, t.change);
    if ok {
      DoKeepsLog(o, Probed(l.address.value));
      var c1 := c.(owner := o);
      SentKeeps(c1, DeclineMessage(c1, mac, l, t.probeAt, t.declined));
    }
  }

  lemma AcceptKeeps(c: Client, mac: Mac, t: Tick, l: Lease, changed: bool)
    requires Owned(c.owner) && MayInstall(c.owner, l) && InOrder(t)
    ensures Keeps(Accept(c, mac, t, l, changed))
  {
    hide Owned, LogInv, MayInstall, Install;
    OwnedIsLogged(c.owner);
    InstallKeeps(c.owner, l, c.attempt + l.duration, t.install);
  }

  lemma GrantedKeeps(c: Client, mac: Mac, t: Tick, l: Lease)
    requires Owned(c.owner) && l.address.Some? && InOrder(t)
    ensures Keeps(Granted(c, mac, t, l))
  {
    hide Owned, LogInv, Clearance, Accept;
    if l.SameNet(c.owner.lease) {
      AcceptKeeps(c, mac, t, l, false);
    } else {
      ClearanceKeeps(c, mac, t, l);
      var (c1, f1) := Clearance(c, mac, t, l);
      if f1 == Go {
        AcceptKeeps(c1, mac, t, l, true);
      }
    }
  }

  lemma ReceiveKeeps(c: Client, mac: Mac, t: Tick)
    requires Owned(c.owner) && InOrder(t)
    ensures Keeps(Receive(c, mac, t))
  {
    hide Owned, LogInv, Granted, Message, Packet, Broadcast, Withdraw, SoundLease;
    OwnedIsLogged(c.owner);
    WithdrawKeeps(c.owner, t.nak);
    if t.packet.Some? && Message(c, mac, t).Some? {
      var (kind, l) := Message(c, mac, t).value;
      MessageIsSound(c, mac, t);
      if Grants(c, kind, l) {
        GrantedKeeps(c, mac, t, l);
      }
      var c1 := TakeOffer(c, mac, t, l).0;
      SentKeeps(c, c1.owner.log[|c1.owner.log| - 1]);
    }
  }

  lemma PassKeeps(c: Client, mac: Mac, t: Tick)
    requires Owned(c.owner) && InOrder(t)
    ensures Keeps(Pass(c, mac, t))
  {
    hide Owned, LogInv, KeepLease, Transmit, Receive;
    KeepLeaseKeeps(c, mac, t);
    var (c1, f1) := KeepLease(c, mac, t);
    if f1 == Go {
      TransmitKeeps(c1, mac, t);
      var (c2, f2) := Transmit(c1, mac, t);
      if f2 == Go {
        ReceiveKeeps(c2, mac, t);
      }
    }
  }

  /** In every run - whatever packets arrive, whatever fails and whatever the clocks say - a network that the process has
      not configured itself, or has withdrawn since, is configured, its route included, only after everything was withdrawn
      and a probe found the new address free; nothing is advertised while probing, only the configured network is
      advertised, and at every pass boundary the handoff file names the configured address and ends half a second before
      its lifetime. */
  lemma {:induction false} RunKeeps(c: Client, mac: Mac, ticks: seq<Tick>)
    requires Owned(c.owner) && forall i :: 0 <= i < |ticks| ==> InOrder(ticks[i])
    ensures var (c', f) := RunPasses(c, mac, ticks);
      Orderly(c'.owner.log) && c'.owner.world == After(c'.owner.log) && (f == Again ==> Owned(c'.owner))
    decreases |ticks|
  {
    hide Owned, Orderly, After, Pass;
    OwnedIsLogged(c.owner);
    if ticks != [] {
      PassKeeps(c, mac, ticks[0]);
      var (c1, f1) := Pass(c, mac, ticks[0]);
      if f1 == Again {
        RunKeeps(c1, mac, ticks[1..]);
      }
    }
  }

  // ---- Which acknowledgements count ----------------------------------------------------------------

  /** The lease of a client, or that it has none. */
  ghost predicate SameLease(a: Client, b: Client) {
    a.owner.lease == b.owner.lease && a.owner.expires == b.owner.expires
  }

  predicate Listens(c: Client) {
    c.phase in {Requesting, Renewing, Rebinding}
  }

  /** A pass in state b, reached before its packet is read, was given the lease l by this packet. */
  ghost predicate GrantedBy(b: Client, mac: Mac, t: Tick, l: Lease) {
    && Message(b, mac, t) == Some((ACK, l)) && Grants(b, ACK, l) && SoundLease(l)
    && t.checkAt + MARGIN < b.attempt + l.duration
  }

  lemma WithdrawLease(o: Owner, io: WithdrawIO)
    ensures var (o', ok) := Withdraw(o, io);
      && (o'.lease == o.lease || o'.lease == NO_LEASE) && o'.expires == o.expires && o'.status == o.status
      && (ok ==> o'.lease.address.None?)
  {
  }

  lemma HeartbeatLease(o: Owner, now: int, io: BeatIO)
    ensures var o' := Heartbeat(o, now, io).0;
      (o'.lease == o.lease || o'.lease == NO_LEASE) && o'.expires == o.expires
  {
    hide Withdraw, Seconds;
    WithdrawLease(o, io.withdraw);
  }

  lemma InstallLease(o: Owner, l: Lease, expires: int, io: InstallIO)
    requires l.address.Some?
    ensures var o' := Install(o, l, expires, io).0;
      || o'.lease.address.None? || (o'.lease == o.lease && o'.expires == o.expires)
      || (o'.lease == l && o'.expires == expires)
  {
    hide Withdraw, Heartbeat;
    if io.overlapFree {
      WithdrawLease(o, io.withdraw);
      var o1 := if l.SameNet(o.lease) then o else Replace(o, l, io).0;
      HeartbeatLease(o1.(lease := l, expires := expires), io.now, io.beat);
    }
  }

  /** The steps before receiving never gain a lease. */
  lemma BeforeReceiveLease(c: Client, mac: Mac, t: Tick)
    ensures var b := BeforeReceive(c, mac, t).0; b.owner.lease.address.None? || SameLease(b, c)
  {
    hide Withdraw, Heartbeat, Packet, Broadcast, Envelope, ArpConflict;
    WithdrawLease(c.owner, t.expire);
    var (c1, f1) := KeepLease(c, mac, t);
    KeepLeaseLease(c, mac, t);
  }

  lemma KeepLeaseLease(c: Client, mac: Mac, t: Tick)
    ensures var b := KeepLease(c, mac, t).0; b.owner.lease.address.None? || SameLease(b, c)
  {
    hide Withdraw, Heartbeat, Packet, Broadcast, ArpConflict;
    WithdrawLease(c.owner, t.expire);
    var (c1, f1) := ExpireLease(c, t);
    HeartbeatLease(c1.owner, t.now, t.beat);
  }

  lemma ReceiveLease(b: Client, mac: Mac, t: Tick)
    ensures var c' := Receive(b, mac, t).0;
      c'.owner.lease.address.Some? && !SameLease(c', b) ==>
        && GrantedBy(b, mac, t, c'.owner.lease) && c'.owner.expires == b.attempt + c'.owner.lease.duration
        && Listens(b) && c'.xid == b.xid && (Receive(b, mac, t).1 == Again ==> c'.phase in {Init, Bound})
  {
    hide Message, Withdraw, Install, Probe, Packet, Broadcast, SoundLease;
    if t.packet.Some? && Message(b, mac, t).Some? {
      var (kind, l) := Message(b, mac, t).value;
      MessageIsSound(b, mac, t);
      WithdrawLease(b.owner, t.nak);
      WithdrawLease(b.owner, t.change);
      if Grants(b, kind, l) {
        AcceptLease(b, mac, t, l);
      }
    }
  }

  /** Only an acknowledgement changes the lease or its expiry: one of this transaction, from the server whose offer was
      requested and for the offered address, or from the leasing server, or - when rebinding - from any server. The
      lease becomes exactly the one it carries and expires its duration after the request was prepared. */
  lemma LeaseComesFromAck(c: Client, mac: Mac, t: Tick)
    ensures var (b, f) := BeforeReceive(c, mac, t); var c' := Pass(c, mac, t).0;
      c'.owner.lease.address.Some? && !SameLease(c', c) ==>
        f == Go && GrantedBy(b, mac, t, c'.owner.lease) && c'.owner.expires == b.attempt + c'.owner.lease.duration
  {
    hide BeforeReceive, Receive, GrantedBy;
    var (b, f) := BeforeReceive(c, mac, t);
    BeforeReceiveLease(c, mac, t);
    ReceiveLease(b, mac, t);
  }

  lemma AcceptLease(b: Client, mac: Mac, t: Tick, l: Lease)
    requires l.address.Some?
    ensures var c' := Granted(b, mac, t, l).0;
      || c'.owner.lease.address.None? || SameLease(c', b)
      || (c'.owner.lease == l && c'.owner.expires == b.attempt + l.duration && t.checkAt + MARGIN < b.attempt + l.duration)
  {
    hide Withdraw, Install, Probe, Packet, Broadcast;
    WithdrawLease(b.owner, t.change);
    InstallLease(b.owner, l, b.attempt + l.duration, t.install);
    if !l.SameNet(b.owner.lease) {
      var (c1, f1) := Clearance(b, mac, t, l);
      InstallLease(c1.owner, l, c1.attempt + l.duration, t.install);
    }
  }

  // ---- How long a lease may be believed ------------------------------------------------------------

  predicate IsRequest(a: Action) {
    a.Sent? && a.kind == REQUEST
  }

  /** The requests of a log in order, failed attempts included. */
  function Requests(log: seq<Action>): (r: seq<Action>)
    ensures forall i :: 0 <= i < |r| ==> IsRequest(r[i])
  {
    if log == [] then []
    else Requests(log[..|log| - 1]) + if IsRequest(log[|log| - 1]) then [log[|log| - 1]] else []
  }

  lemma DoRequests(o: Owner, a: Action)
    ensures Requests(Do(o, a).log) == Requests(o.log) + if IsRequest(a) then [a] else []
  {
    assert (o.log + [a])[..|o.log|] == o.log;
  }

  lemma WithdrawRequests(o: Owner, io: WithdrawIO)
    ensures Requests(Withdraw(o, io).0.log) == Requests(o.log)
  {
    hide Requests;
    var o1 := Do(o, RemoveHandoff(io.removed));
    DoRequests(o, RemoveHandoff(io.removed));
    if io.removed && o.lease.address.Some? {
      var o2 := Do(o1, DeleteRoute(o.lease.router, io.route));
      DoRequests(o1, DeleteRoute(o.lease.router, io.route));
      DoRequests(o2, DeleteAddress(Held(o.lease), io.address));
    }
  }

  lemma HeartbeatRequests(o: Owner, now: int, io: BeatIO)
    ensures Requests(Heartbeat(o, now, io).0.log) == Requests(o.log)
  {
    hide Seconds, Requests;
    WithdrawRequests(o, io.withdraw);
    if o.lease.address.Some? && Seconds(o.expires, now) >= 1 {
      var seconds := Seconds(o.expires, now);
      var a, status := SetAddress(Held(o.lease), Grant(io.at, seconds), io.address), Beat(o.status, now, seconds);
      DoRequests(o, a);
      DoRequests(Do(o, a), WriteHandoff(status, io.written));
    }
  }

  lemma InstallRequests(o: Owner, l: Lease, expires: int, io: InstallIO)
    requires l.address.Some?
    ensures Requests(Install(o, l, expires, io).0.log) == Requests(o.log)
  {
    hide Heartbeat, Withdraw, Requests;
    ReplaceRequests(o, l, io);
    var o1 := if l.SameNet(o.lease) then o else Replace(o, l, io).0;
    HeartbeatRequests(o1.(lease := l, expires := expires), io.now, io.beat);
  }

  lemma ReplaceRequests(o: Owner, l: Lease, io: InstallIO)
    requires l.address.Some?
    ensures Requests(Replace(o, l, io).0.log) == Requests(o.log)
  {
    hide Withdraw, Requests;
    WithdrawRequests(o, io.withdraw);
    var o1 := Withdraw(o, io.withdraw).0;
    if io.generation.Some? {
      var a := SetAddress(Held(l), Grant(io.at, MAX_LIFETIME), io.address);
      var named := o1.(status := Status(io.generation.value, 0, l.address, l.prefix, l.router, 0));
      DoRequests(named, a);
      DoRequests(Do(named, a), AddRoute(l.router, io.route));
      DoRequests(Do(Do(named, a), AddRoute(l.router, io.route)), DeleteAddress(Held(l), io.undo));
    }
  }

  /** A request of this transaction, sent or attempted at the given time. */
  predicate IsAttempt(a: Action, xid: Xid, at: int) {
    IsRequest(a) && a.xid == xid && a.at == at
  }

  lemma RenewKeepsOwner(c: Client, t: Tick)
    ensures RenewLease(c, t).0.owner == c.owner
  {
  }

  lemma KeepLeaseRequests(c: Client, mac: Mac, t: Tick)
    ensures Requests(KeepLease(c, mac, t).0.owner.log) == Requests(c.owner.log)
  {
    hide Withdraw, Heartbeat, Requests, DeclineMessage, ArpConflict, Do, RenewLease;
    WithdrawRequests(c.owner, t.expire);
    var c1 := ExpireLease(c, t).0;
    HeartbeatRequests(c1.owner, t.now, t.beat);
    RenewKeepsOwner(BeatLease(c1, t).0, t);
    var c3 := RenewLease(BeatLease(c1, t).0, t).0;
    DoRequests(c3.owner, DeclineMessage(c3, mac, c3.owner.lease, t.now, t.declined));
  }

  /** Only the renewal phases send a request before reading. */
  lemma TransmitRequests(c: Client, mac: Mac, t: Tick)
    ensures var before, after := Requests(c.owner.log), Requests(Transmit(c, mac, t).0.owner.log);
      || after == before
      || (&& c.phase in {Renewing, Rebinding} && t.now >= c.next && |after| == |before| + 1
          && after[..|before|] == before && IsAttempt(after[|before|], c.xid, t.now))
    ensures c.phase in {Renewing, Rebinding} && t.now >= c.next ==>
              Requests(Transmit(c, mac, t).0.owner.log) != Requests(c.owner.log)
  {
    hide Requests, Packet, Broadcast, Envelope;
    var c' := Transmit(c, mac, t).0;
    if c'.owner.log != c.owner.log {
      var a := c'.owner.log[|c'.owner.log| - 1];
      DoRequests(c.owner, a);
    }
  }

  /** A reception requests what it was offered, and nothing else. */
  lemma ReceiveRequests(c: Client, mac: Mac, t: Tick)
    ensures var before, c' := Requests(c.owner.log), Receive(c, mac, t).0; var after := Requests(c'.owner.log);
      || (after == before && (Listens(c') ==> c'.phase == c.phase && c'.attempt == c.attempt && c'.xid == c.xid))
      || (&& c.phase == Selecting && c'.phase == Requesting && |after| == |before| + 1 && c'.attempt == t.requestAt
          && c'.xid == c.xid && SameLease(c', c) && after[..|before|] == before && IsAttempt(after[|before|], c.xid, t.requestAt))
  {
    hide Requests, Withdraw, Granted, Message, Packet, Broadcast, SoundLease;
    WithdrawRequests(c.owner, t.nak);
    if t.packet.Some? && Message(c, mac, t).Some? {
      var (kind, l) := Message(c, mac, t).value;
      MessageIsSound(c, mac, t);
      if l.address.Some? {
        GrantedRequests(c, mac, t, l);
      }
      var c1 := TakeOffer(c, mac, t, l).0;
      DoRequests(c.owner, c1.owner.log[|c1.owner.log| - 1]);
    }
  }

  lemma GrantedRequests(c: Client, mac: Mac, t: Tick, l: Lease)
    requires l.address.Some?
    ensures var c' := Granted(c, mac, t, l).0;
      && Requests(c'.owner.log) == Requests(c.owner.log) && c'.attempt == c.attempt && c'.xid == c.xid
      && (c'.phase == c.phase || c'.phase in {Init, Bound})
  {
    hide Requests, Withdraw, Install, Probe, Packet, Broadcast;
    if l.SameNet(c.owner.lease) {
      InstallRequests(c.owner, l, c.attempt + l.duration, t.install);
    } else {
      WithdrawRequests(c.owner, t.change);
      var c1 := c.(owner := Withdraw(c.owner, t.change).0);
      DoRequests(c1.owner, Probed(l.address.value));
      DoRequests(c1.owner, DeclineMessage(c1, mac, l, t.probeAt, t.declined));
      var c2 := Log(c1, Probed(l.address.value));
      InstallRequests(c2.owner, l, c2.attempt + l.duration, t.install);
    }
  }

  /** A request was attempted no earlier than the given time. */
  ghost predicate Requested(requests: seq<Action>, since: int) {
    exists i: nat :: i < |requests| && IsRequest(requests[i]) && since <= requests[i].at
  }

  /** A held lease expires at most its duration after an attempted request, and a phase that listens for an
      acknowledgement has attempted its request. */
  ghost predicate Backed(c: Client) {
    LeaseBacked(c) && (Listens(c) ==> Requested(Requests(c.owner.log), c.attempt))
  }

  ghost predicate LeaseBacked(c: Client) {
    c.owner.lease.address.Some? ==> Requested(Requests(c.owner.log), c.owner.expires - c.owner.lease.duration)
  }

  /** Before sending, a renewal phase may have just begun and still owe its request. */
  ghost predicate Owing(c: Client, now: int) {
    && LeaseBacked(c)
    && (Listens(c) ==>
          Requested(Requests(c.owner.log), c.attempt) || (c.phase != Requesting && c.next == 0 && c.attempt == now))
  }

  lemma KeepLeaseOwes(c: Client, mac: Mac, t: Tick)
    requires Backed(c) && KeepLease(c, mac, t).1 == Go
    ensures Owing(KeepLease(c, mac, t).0, t.now)
  {
    hide Withdraw, Heartbeat, Requested, Requests, Packet, Broadcast, ArpConflict;
    KeepLeaseLease(c, mac, t);
    KeepLeaseRequests(c, mac, t);
  }

  lemma SendingPays(c: Client, mac: Mac, t: Tick)
    requires Owing(c, t.now) && 0 <= t.now && !Transmit(c, mac, t).1.Stop?
    ensures Backed(Transmit(c, mac, t).0)
  {
    hide Requests, Packet, Broadcast, Envelope;
    var c' := Transmit(c, mac, t).0;
    var before, after := Requests(c.owner.log), Requests(c'.owner.log);
    TransmitRequests(c, mac, t);
    SendingKeepsLease(c, mac, t);
    assert forall i :: 0 <= i < |before| ==> after[i] == before[i];
  }

  lemma ReceiveBacked(b: Client, mac: Mac, t: Tick)
    requires Backed(b) && Receive(b, mac, t).1 == Again
    ensures Backed(Receive(b, mac, t).0)
  {
    hide Requests, Receive, GrantedBy;
    var c' := Receive(b, mac, t).0;
    var before, after := Requests(b.owner.log), Requests(c'.owner.log);
    ReceiveRequests(b, mac, t);
    ReceiveLease(b, mac, t);
    assert forall i :: 0 <= i < |before| ==> after[i] == before[i];
  }

  lemma PassBacked(c: Client, mac: Mac, t: Tick)
    requires Backed(c) && 0 <= t.now
    ensures Pass(c, mac, t).1 == Again ==> Backed(Pass(c, mac, t).0)
  {
    hide Backed, KeepLease, Transmit, Receive;
    var (c1, f1) := KeepLease(c, mac, t);
    if Pass(c, mac, t).1 == Again && f1 == Go {
      KeepLeaseOwes(c, mac, t);
      SendingPays(c1, mac, t);
      var (c2, f2) := Transmit(c1, mac, t);
      if f2 == Go {
        ReceiveBacked(c2, mac, t);
      }
    } else {
      KeepLeaseDecides(c, mac, t);
    }
  }

  lemma KeepLeaseDecides(c: Client, mac: Mac, t: Tick)
    ensures KeepLease(c, mac, t).1 != Again
  {
    hide Withdraw, Heartbeat, Packet, Broadcast, ArpConflict;
  }

  /** At every pass boundary of every run the lease expires no later than its duration after a request that was
      attempted (section 4.4.1 of RFC 2131): acknowledgements never prolong it from their own arrival. */
  lemma {:induction false} RunIsBacked(c: Client, mac: Mac, ticks: seq<Tick>)
    requires Backed(c) && forall i :: 0 <= i < |ticks| ==> 0 <= ticks[i].now
    ensures RunPasses(c, mac, ticks).1 == Again ==> Backed(RunPasses(c, mac, ticks).0)
    decreases |ticks|
  {
    hide Backed, Pass;
    if ticks != [] && Pass(c, mac, ticks[0]).1 == Again {
      PassBacked(c, mac, ticks[0]);
      RunIsBacked(Pass(c, mac, ticks[0]).0, mac, ticks[1..]);
    }
  }

  // ---- The request behind an acknowledgement -------------------------------------------------------

  predicate IsRequestOf(a: Action, xid: Xid) {
    IsRequest(a) && a.xid == xid
  }

  /** No request of the transaction was made, or even attempted, before the given time. */
  ghost predicate NoneEarlier(requests: seq<Action>, xid: Xid, since: int) {
    forall i :: 0 <= i < |requests| && IsRequestOf(requests[i], xid) ==> since <= requests[i].at
  }

  ghost predicate NeverAsked(requests: seq<Action>, xid: Xid) {
    forall i :: 0 <= i < |requests| ==> !IsRequestOf(requests[i], xid)
  }

  ghost predicate GotOut(requests: seq<Action>, xid: Xid) {
    exists i: nat :: i < |requests| && IsRequestOf(requests[i], xid) && requests[i].out
  }

  /** The lease was acknowledged to this transaction: one of its requests really got out, and all of them were made at
      most the duration of the lease before its expiry. */
  ghost predicate LeaseFrom(c: Client, xid: Xid) {
    && (xid != c.xid || c.phase in {Init, Bound})
    && GotOut(Requests(c.owner.log), xid)
    && NoneEarlier(Requests(c.owner.log), xid, c.owner.expires - c.owner.lease.duration)
  }

  /** A phase that listens made no request of its transaction before the attempt it counts from, and - if servers
      acknowledge only requests that got out - a held lease expires at most its duration after every request of the
      transaction that it was acknowledged to. */
  ghost predicate Timed(c: Client, honest: bool) {
    && (Listens(c) ==> NoneEarlier(Requests(c.owner.log), c.xid, c.attempt))
    && (c.phase == Selecting ==> NeverAsked(Requests(c.owner.log), c.xid))
    && (honest && c.owner.lease.address.Some? ==> exists xid: Xid :: LeaseFrom(c, xid))
  }

  /** The transaction id that a pass draws was not used before. */
  ghost predicate DrawsNew(c: Client, t: Tick) {
    t.entropy.Some? ==> NeverAsked(Requests(c.owner.log), t.entropy.value)
  }

  /** An acknowledgement answers a request that got out. */
  ghost predicate AnswersRequest(b: Client, mac: Mac, t: Tick) {
    Message(b, mac, t).Some? && Message(b, mac, t).value.0 == ACK ==> GotOut(Requests(b.owner.log), b.xid)
  }

  /** The clock does not run backwards and no transaction id is drawn twice. */
  ghost predicate Timely(c: Client, mac: Mac, ticks: seq<Tick>, clock: int, honest: bool)
    decreases |ticks|
  {
    ticks != [] ==>
      var t := ticks[0];
      && clock <= t.now <= t.requestAt && DrawsNew(c, t)
      && (honest ==> AnswersRequest(BeforeReceive(c, mac, t).0, mac, t))
      && Timely(Pass(c, mac, t).0, mac, ticks[1..], t.requestAt, honest)
  }

  lemma KeepLeaseShape(c: Client, mac: Mac, t: Tick)
    requires KeepLease(c, mac, t).1 == Go
    ensures var c' := KeepLease(c, mac, t).0;
      || (c'.xid == c.xid && c'.attempt == c.attempt
          && (c'.phase == c.phase || (c'.phase == Init && c'.owner.lease.address.None?)))
      || (c'.phase in {Renewing, Rebinding} && t.entropy == Some(c'.xid) && c'.attempt == t.now)
  {
    hide Withdraw, Heartbeat, Packet, Broadcast, ArpConflict;
    WithdrawLease(c.owner, t.expire);
    HeartbeatLease(ExpireLease(c, t).0.owner, t.now, t.beat);
  }

  lemma LeaseStaysFrom(c: Client, c': Client, xid: Xid)
    requires LeaseFrom(c, xid) && SameLease(c', c) && Requests(c'.owner.log) == Requests(c.owner.log)
    requires (c'.xid == c.xid && c'.phase == c.phase) || NeverAsked(Requests(c.owner.log), c'.xid) || c'.phase in {Init, Bound}
    ensures LeaseFrom(c', xid)
  {
  }

  lemma KeepLeaseTimed(c: Client, mac: Mac, t: Tick, honest: bool)
    requires Timed(c, honest) && c.attempt <= t.now && DrawsNew(c, t) && KeepLease(c, mac, t).1 == Go
    ensures var c' := KeepLease(c, mac, t).0; Timed(c', honest) && c'.attempt <= t.now && DrawsNew(c', t)
  {
    hide KeepLease, Requests, LeaseFrom;
    var c' := KeepLease(c, mac, t).0;
    KeepLeaseShape(c, mac, t);
    KeepLeaseRequests(c, mac, t);
    KeepLeaseLease(c, mac, t);
    if honest && c'.owner.lease.address.Some? {
      var xid: Xid :| LeaseFrom(c, xid);
      LeaseStaysFrom(c, c', xid);
    }
  }

  lemma TransmitShape(c: Client, mac: Mac, t: Tick)
    requires !Transmit(c, mac, t).1.Stop?
    ensures var c' := Transmit(c, mac, t).0;
      || (c'.xid == c.xid && c'.attempt == c.attempt && c'.phase == c.phase && (c.phase == Selecting ==> t.now < c.next))
      || (c.phase in {Init, Selecting} && c'.phase == Selecting && c'.attempt == t.now
          && (if c.phase == Init then t.entropy == Some(c'.xid) else c'.xid == c.xid))
      || (c'.phase == Init && c'.xid == c.xid && c'.attempt == c.attempt)
  {
    hide Packet, Broadcast, Envelope;
  }

  /** One more request, not before the given time and of another transaction than the leased one, changes nothing. */
  lemma OneMoreRequest(before: seq<Action>, after: seq<Action>, xid: Xid, at: int, other: Xid, since: int)
    requires |after| == |before| + 1 && after[..|before|] == before && IsAttempt(after[|before|], xid, at)
    ensures (xid != other || since <= at) && NoneEarlier(before, other, since) ==> NoneEarlier(after, other, since)
    ensures GotOut(before, other) ==> GotOut(after, other)
  {
    assert forall i :: 0 <= i < |before| ==> after[i] == before[i];
    if GotOut(before, other) {
      var i: nat :| i < |before| && IsRequestOf(before[i], other) && before[i].out;
      assert IsRequestOf(after[i], other);
    }
  }

  lemma TransmitTimed(c: Client, mac: Mac, t: Tick, honest: bool)
    requires Timed(c, honest) && c.attempt <= t.now && DrawsNew(c, t) && !Transmit(c, mac, t).1.Stop?
    ensures var c' := Transmit(c, mac, t).0; Timed(c', honest) && c'.attempt <= t.now
  {
    hide Transmit, Requests, NoneEarlier, GotOut;
    var c' := Transmit(c, mac, t).0;
    var before, after := Requests(c.owner.log), Requests(c'.owner.log);
    TransmitShape(c, mac, t);
    TransmitRequests(c, mac, t);
    SendingKeepsLease(c, mac, t);
    NeverIsNoneEarlier(before, c'.xid, c'.attempt);
    if after != before {
      OneMoreRequest(before, after, c.xid, t.now, c.xid, c.attempt);
    }
    if honest && c'.owner.lease.address.Some? {
      var xid: Xid :| LeaseFrom(c, xid);
      if after != before {
        OneMoreRequest(before, after, c.xid, t.now, xid, c.owner.expires - c.owner.lease.duration);
      }
      NeverIsNoneEarlier(before, xid, c'.attempt);
      assert LeaseFrom(c', xid);
    }
  }

  lemma NeverIsNoneEarlier(requests: seq<Action>, xid: Xid, since: int)
    ensures NeverAsked(requests, xid) ==> NoneEarlier(requests, xid, since) && !GotOut(requests, xid)
  {
  }

  lemma ReceiveTimed(b: Client, mac: Mac, t: Tick, honest: bool)
    requires Timed(b, honest) && b.attempt <= t.now <= t.requestAt && Receive(b, mac, t).1 == Again
    requires honest ==> AnswersRequest(b, mac, t)
    ensures var c' := Receive(b, mac, t).0; Timed(c', honest) && c'.attempt <= t.requestAt
  {
    hide Receive, Requests, NoneEarlier, GotOut, SoundLease, Message, Grants;
    var c' := Receive(b, mac, t).0;
    var before, after := Requests(b.owner.log), Requests(c'.owner.log);
    ReceiveRequests(b, mac, t);
    ReceiveShape(b, mac, t);
    ReceiveLease(b, mac, t);
    if after != before {
      NeverIsNoneEarlier(before, b.xid, t.requestAt);
      OneMoreRequest(before, after, b.xid, t.requestAt, b.xid, t.requestAt);
    }
    if honest && c'.owner.lease.address.Some? {
      if SameLease(c', b) && b.owner.lease.address.Some? {
        var xid: Xid :| LeaseFrom(b, xid);
        if after != before {
          OneMoreRequest(before, after, b.xid, t.requestAt, xid, b.owner.expires - b.owner.lease.duration);
        }
        NeverIsNoneEarlier(before, xid, t.requestAt);
        assert LeaseFrom(c', xid);
      } else {
        assert LeaseFrom(c', b.xid);
      }
    }
  }

  lemma ReceiveShape(b: Client, mac: Mac, t: Tick)
    requires Receive(b, mac, t).1 == Again
    ensures var c' := Receive(b, mac, t).0;
      && c'.xid == b.xid && (c'.phase == b.phase || c'.phase in {Init, Bound, Requesting})
      && (c'.attempt == b.attempt || (c'.phase == Requesting && c'.attempt == t.requestAt))
  {
    hide Message, Withdraw, Install, Probe, Packet, Broadcast, SoundLease;
  }

  lemma PassTimed(c: Client, mac: Mac, t: Tick, honest: bool)
    requires Timed(c, honest) && c.attempt <= t.now <= t.requestAt && DrawsNew(c, t)
    requires honest ==> AnswersRequest(BeforeReceive(c, mac, t).0, mac, t)
    ensures var (c', f) := Pass(c, mac, t); f == Again ==> Timed(c', honest) && c'.attempt <= t.requestAt
  {
    hide Timed, KeepLease, Transmit, Receive, AnswersRequest, DrawsNew;
    KeepLeaseDecides(c, mac, t);
    var (c1, f1) := KeepLease(c, mac, t);
    if f1 == Go {
      KeepLeaseTimed(c, mac, t, honest);
      var (c2, f2) := Transmit(c1, mac, t);
      if !f2.Stop? {
        TransmitTimed(c1, mac, t, honest);
        if f2 == Go && Receive(c2, mac, t).1 == Again {
          ReceiveTimed(c2, mac, t, honest);
        }
      }
    }
  }

  /** Over every run in which the clock does not run backwards and no transaction id is drawn twice: while the client
      listens for an acknowledgement, no request of its transaction is older than the attempt that the new expiry will
      be counted from; and if servers acknowledge only requests that got out, a held lease belongs to a transaction
      with such a request and expires no later than its duration after every request of it. */
  lemma {:induction false} RunIsTimed(c: Client, mac: Mac, ticks: seq<Tick>, clock: int, honest: bool)
    requires Timed(c, honest) && c.attempt <= clock && Timely(c, mac, ticks, clock, honest)
    ensures var (c', f) := RunPasses(c, mac, ticks); f == Again ==> Timed(c', honest)
    decreases |ticks|
  {
    hide Timed, Pass, BeforeReceive, AnswersRequest, DrawsNew;
    if ticks != [] {
      PassTimed(c, mac, ticks[0], honest);
      var (c1, f1) := Pass(c, mac, ticks[0]);
      if f1 == Again {
        RunIsTimed(c1, mac, ticks[1..], ticks[0].requestAt, honest);
      }
    }
  }

  // ---- When a phase loses its lease ----------------------------------------------------------------

  /** The phases after an acknowledgement hold a lease. */
  predicate PhaseHasLease(c: Client) {
    c.phase in {Bound, Renewing, Rebinding} ==> c.owner.lease.address.Some?
  }

  /** The authorization on disk does not outlive the lease. */
  predicate WithinLease(o: Owner) {
    o.world.handoff.Some? && o.expires != 0 ==> o.world.handoff.value.validUntil + HALF <= o.expires
  }

  /** When the kernel forgets the held address. */
  function Lifetime(o: Owner): int {
    if o.lease.address.Some? && Held(o.lease) in o.world.addresses then o.world.addresses[Held(o.lease)].Until() else 0
  }

  /** A held address is advertised, and its lifetime outlasts the authorization by at most half a second and the slack. */
  predicate Close(o: Owner, slack: int) {
    o.lease.address.Some? ==> o.world.handoff.Some? && Lifetime(o) <= o.world.handoff.value.validUntil + HALF + slack
  }

  /** Every kernel call of the pass that sets a lifetime is handled within the slack. */
  predicate Quick(t: Tick, slack: int) {
    t.beat.at - t.now <= slack && t.install.beat.at - t.install.now <= slack
  }

  /** The state that reads the packet accepts an acknowledgement and gets as far as installing its lease. */
  ghost predicate Installs(b: Client, mac: Mac, t: Tick) {
    && Message(b, mac, t).Some? && var (kind, l) := Message(b, mac, t).value;
    && GrantedBy(b, mac, t, l)
    && (l.SameNet(b.owner.lease) || (l.address.Some? && Probe(t.probe, mac, l.address.value, t.first, t.probeAt) == Clear))
  }

  ghost predicate PassInstalls(c: Client, mac: Mac, t: Tick) {
    var (b, f) := BeforeReceive(c, mac, t);
    f == Go && Installs(b, mac, t)
  }

  ghost function NewExpiry(c: Client, mac: Mac, t: Tick): int
    requires PassInstalls(c, mac, t)
  {
    var b := BeforeReceive(c, mac, t).0;
    b.attempt + Message(b, mac, t).value.1.duration
  }

  /** What is left of the new lease when the first heartbeat after its installation reads the clock. */
  ghost function LeftAtInstall(c: Client, mac: Mac, t: Tick): int
    requires PassInstalls(c, mac, t)
  {
    NewExpiry(c, mac, t) - t.install.now
  }

  /** The installation took so long that less than a second is left, or was left less than a second ago. */
  ghost predicate TooLate(c: Client, mac: Mac, t: Tick) {
    PassInstalls(c, mac, t) && NewExpiry(c, mac, t) != 0 && -SECOND < LeftAtInstall(c, mac, t) < SECOND
  }

  /** It took so long that the lease ended at least a second ago. */
  ghost predicate MuchTooLate(c: Client, mac: Mac, t: Tick) {
    PassInstalls(c, mac, t) && NewExpiry(c, mac, t) != 0 && LeftAtInstall(c, mac, t) <= -SECOND
  }

  const SEVERAL_LIFETIMES := (U32_WRAP - MAX_LIFETIME - 1) * SECOND

  ghost predicate Healthy(c: Client) {
    Owned(c.owner) && PhaseHasLease(c) && WithinLease(c.owner)
  }

  lemma HeartbeatOutcome(o: Owner, now: int, io: BeatIO)
    requires Owned(o) && now <= io.at && Heartbeat(o, now, io).1 && o.lease.address.Some?
    ensures var o' := Heartbeat(o, now, io).0;
      && (Seconds(o.expires, now) < 1 ==> o'.lease.address == None && o'.world.handoff == None)
      && (Seconds(o.expires, now) >= 1 ==>
            (&& o'.lease == o.lease && o'.expires == o.expires && o'.world.handoff.Some?
             && o'.world.handoff.value.validUntil + HALF == now + Seconds(o.expires, now) * SECOND
             && Lifetime(o') == io.at + Seconds(o.expires, now) * SECOND))
  {
    hide Seconds, Orderly, After;
    WithdrawKeeps(o, io.withdraw);
  }

  lemma InstallOutcome(o: Owner, l: Lease, expires: int, io: InstallIO)
    requires Owned(o) && MayInstall(o, l) && io.now <= io.beat.at && Install(o, l, expires, io).1
    ensures var o' := Install(o, l, expires, io).0;
      && (Seconds(expires, io.now) < 1 ==> o'.lease.address == None && o'.world.handoff == None)
      && (Seconds(expires, io.now) >= 1 ==>
            (&& o'.lease == l && o'.expires == expires && o'.world.handoff.Some?
             && o'.world.handoff.value.validUntil + HALF == io.now + Seconds(expires, io.now) * SECOND
             && Lifetime(o') == io.beat.at + Seconds(expires, io.now) * SECOND))
  {
    hide Seconds, Orderly, After, Heartbeat, Withdraw;
    if l.SameNet(o.lease) {
      HeartbeatOutcome(o.(lease := l, expires := expires), io.now, io.beat);
    } else {
      ReplaceKeeps(o, l, io);
      HeartbeatOutcome(Replace(o, l, io).0.(lease := l, expires := expires), io.now, io.beat);
    }
  }

  lemma ExpireHealthy(c: Client, t: Tick)
    requires Healthy(c) && ExpireLease(c, t).1 == Go
    ensures var c' := ExpireLease(c, t).0; Healthy(c') && (c'.owner.lease.address.Some? ==> t.now < c'.owner.expires)
  {
    hide Owned, Withdraw;
    WithdrawKeeps(c.owner, t.expire);
  }

  lemma BeatHealthy(c: Client, t: Tick)
    requires Healthy(c) && InOrder(t) && BeatLease(c, t).1 == Go
    requires c.owner.lease.address.Some? ==> t.now < c.owner.expires
    ensures Healthy(BeatLease(c, t).0)
  {
    hide Owned, Heartbeat, Seconds;
    BeatKeeps(c, t);
    HeartbeatLease(c.owner, t.now, t.beat);
    if t.now > c.heartbeat && c.owner.lease.address.Some? {
      HeartbeatOutcome(c.owner, t.now, t.beat);
      SecondsWithinLease(c.owner.expires, t.now);
    } else {
      NoLeaseNoBeat(c.owner, t.now, t.beat);
    }
  }

  lemma NoLeaseNoBeat(o: Owner, now: int, io: BeatIO)
    ensures o.lease.address.None? ==> Heartbeat(o, now, io) == (o, true)
  {
  }

  lemma KeepLeaseHealthy(c: Client, mac: Mac, t: Tick)
    requires Healthy(c) && InOrder(t) && KeepLease(c, mac, t).1 == Go
    ensures Healthy(KeepLease(c, mac, t).0)
  {
    hide Owned, ExpireLease, BeatLease, ArpConflict;
    if c.owner.lease.address.Some? {
      ExpireHealthy(c, t);
      BeatHealthy(ExpireLease(c, t).0, t);
    }
  }

  lemma TransmitHealthy(c: Client, mac: Mac, t: Tick)
    requires Healthy(c) && !Transmit(c, mac, t).1.Stop?
    ensures Healthy(Transmit(c, mac, t).0)
  {
    hide Owned, Discover, AskServer, AskAnyone;
    TransmitKeeps(c, mac, t);
    SendingKeepsLease(c, mac, t);
  }

  lemma SendingKeepsLease(c: Client, mac: Mac, t: Tick)
    ensures var c' := Transmit(c, mac, t).0;
      && SameLease(c', c) && c'.owner.world == c.owner.world
      && (c'.phase in {Bound, Renewing, Rebinding} ==> c'.phase == c.phase)
  {
    hide Packet, Broadcast, Envelope;
  }

  /** What an installation under this expiry leaves behind when its heartbeat read the clock at the given time. */
  ghost predicate Settled(c: Client, expires: int, now: int) {
    && (PhaseHasLease(c) <==> Seconds(expires, now) >= 1)
    && (Seconds(expires, now) < 1 ==> WithinLease(c.owner))
    && (Seconds(expires, now) >= 1 ==>
          (WithinLease(c.owner) <==> expires == 0 || now + Seconds(expires, now) * SECOND <= expires))
  }

  /** A completed reception leaves the client healthy unless it installs too late. */
  lemma ReceiveOutcome(b: Client, mac: Mac, t: Tick)
    requires Healthy(b) && InOrder(t) && Receive(b, mac, t).1 == Again
    ensures var c' := Receive(b, mac, t).0;
      if Installs(b, mac, t) then Settled(c', b.attempt + Message(b, mac, t).value.1.duration, t.install.now) else Healthy(c')
  {
    hide Owned, Withdraw, Granted, Probe, Packet, Broadcast, Message, SoundLease, Settled;
    ReceiveKeeps(b, mac, t);
    if t.packet.Some? && Message(b, mac, t).Some? {
      var (kind, l) := Message(b, mac, t).value;
      MessageIsSound(b, mac, t);
      WithdrawKeeps(b.owner, t.nak);
      if Grants(b, kind, l) && !(b.phase == Selecting && kind == OFFER) {
        GrantedOutcome(b, mac, t, l);
      }
    }
  }

  lemma GrantedOutcome(b: Client, mac: Mac, t: Tick, l: Lease)
    requires Healthy(b) && InOrder(t) && l.address.Some? && Granted(b, mac, t, l).1 == Again
    ensures var c', expires := Granted(b, mac, t, l).0, b.attempt + l.duration;
      if t.checkAt + MARGIN < expires &&
         (l.SameNet(b.owner.lease) || Probe(t.probe, mac, l.address.value, t.first, t.probeAt) == Clear) then
        Settled(c', expires, t.install.now)
      else PhaseHasLease(c') && WithinLease(c'.owner)
  {
    hide Owned, LogInv, MayInstall, Withdraw, Accept, Probe, Packet, Broadcast, Settled;
    WithdrawKeeps(b.owner, t.change);
    if l.SameNet(b.owner.lease) {
      SameNetMayInstall(b.owner, l);
      AcceptOutcome(b, mac, t, l, false);
    } else {
      ClearanceKeeps(b, mac, t, l);
      var (c1, f1) := Clearance(b, mac, t, l);
      if f1 == Go {
        AcceptOutcome(c1, mac, t, l, true);
      }
    }
  }

  lemma SameNetMayInstall(o: Owner, l: Lease)
    requires l.address.Some? && l.SameNet(o.lease)
    ensures MayInstall(o, l)
  {
  }

  lemma AcceptOutcome(c: Client, mac: Mac, t: Tick, l: Lease, changed: bool)
    requires Owned(c.owner) && l.address.Some? && MayInstall(c.owner, l) && InOrder(t)
    requires WithinLease(c.owner) && Accept(c, mac, t, l, changed).1 == Again
    ensures var c', expires := Accept(c, mac, t, l, changed).0, c.attempt + l.duration;
      if t.checkAt + MARGIN < expires then Settled(c', expires, t.install.now) else PhaseHasLease(c') && WithinLease(c'.owner)
  {
    hide Owned, MayInstall, Install, Seconds;
    if t.checkAt + MARGIN < c.attempt + l.duration {
      InstallOutcome(c.owner, l, c.attempt + l.duration, t.install);
    }
  }

  lemma HealthyMeans(c: Client)
    ensures Healthy(c) ==> PhaseHasLease(c) && WithinLease(c.owner)
  {
  }

  /** Exactly when a completed pass breaks the two promises. A phase after an acknowledgement has no lease if and only
      if less than a second of the new lease, either way, was left when its installation finished; the authorization
      outlives the lease if and only if the lease had ended a second or more before that. */
  lemma PassOutcome(c: Client, mac: Mac, t: Tick)
    requires Healthy(c) && InOrder(t) && Pass(c, mac, t).1 == Again
    ensures PhaseHasLease(Pass(c, mac, t).0) <==>
            !(PassInstalls(c, mac, t) && Seconds(NewExpiry(c, mac, t), t.install.now) < 1)
    ensures (PassInstalls(c, mac, t) ==> LeftAtInstall(c, mac, t) > -SEVERAL_LIFETIMES) ==>
              (&& (PhaseHasLease(Pass(c, mac, t).0) <==> !TooLate(c, mac, t))
               && (WithinLease(Pass(c, mac, t).0.owner) <==> !MuchTooLate(c, mac, t)))
  {
    hide Healthy, GrantedBy, Message, KeepLease, Transmit, Receive, Probe, Seconds;
    KeepLeaseDecides(c, mac, t);
    if KeepLease(c, mac, t).1 == Go {
      KeepLeaseHealthy(c, mac, t);
      var c1 := KeepLease(c, mac, t).0;
      TransmitHealthy(c1, mac, t);
      var (b, f) := Transmit(c1, mac, t);
      HealthyMeans(Transmit(c1, mac, t).0);
      if f == Go {
        ReceiveOutcome(b, mac, t);
        HealthyMeans(Receive(b, mac, t).0);
        if Installs(b, mac, t) {
          var expires := b.attempt + Message(b, mac, t).value.1.duration;
          if expires - t.install.now > -SEVERAL_LIFETIMES {
            SecondsWithinLease(expires, t.install.now);
          }
        }
      }
    }
  }

  /** The installation's heartbeat reads the clock at most four seconds after the check that five were left. */
  predicate Prompt(t: Tick) {
    t.install.now <= t.checkAt + 4 * SECOND
  }

  lemma PassStaysHealthy(c: Client, mac: Mac, t: Tick)
    requires Healthy(c) && InOrder(t) && Prompt(t) && Pass(c, mac, t).1 == Again
    ensures Healthy(Pass(c, mac, t).0)
  {
    hide Owned, Pass, BeforeReceive, Message, Seconds, Probe;
    PassKeeps(c, mac, t);
    PassOutcome(c, mac, t);
  }

  // ---- The lifetime of the address -----------------------------------------------------------------

  lemma BeatClose(c: Client, t: Tick, slack: int)
    requires Owned(c.owner) && InOrder(t) && Close(c.owner, slack) && Quick(t, slack) && BeatLease(c, t).1 == Go
    ensures Close(BeatLease(c, t).0.owner, slack)
  {
    hide Owned, Heartbeat, Lifetime;
    HeartbeatLease(c.owner, t.now, t.beat);
    NoLeaseNoBeat(c.owner, t.now, t.beat);
    if t.now > c.heartbeat && c.owner.lease.address.Some? {
      HeartbeatOutcome(c.owner, t.now, t.beat);
    }
  }

  lemma KeepLeaseClose(c: Client, mac: Mac, t: Tick, slack: int)
    requires Owned(c.owner) && InOrder(t) && Close(c.owner, slack) && Quick(t, slack) && KeepLease(c, mac, t).1 == Go
    ensures Close(KeepLease(c, mac, t).0.owner, slack)
  {
    hide Owned, LogInv, Withdraw, BeatLease, ArpConflict, Lifetime;
    if c.owner.lease.address.Some? {
      ExpireKeeps(c, t);
      WithdrawLease(c.owner, t.expire);
      BeatClose(ExpireLease(c, t).0, t, slack);
    }
  }

  lemma AcceptClose(c: Client, mac: Mac, t: Tick, l: Lease, changed: bool, slack: int)
    requires Owned(c.owner) && l.address.Some? && MayInstall(c.owner, l) && InOrder(t)
    requires Close(c.owner, slack) && Quick(t, slack) && Accept(c, mac, t, l, changed).1 == Again
    ensures Close(Accept(c, mac, t, l, changed).0.owner, slack)
  {
    hide Owned, MayInstall, Install, Seconds, Lifetime;
    if t.checkAt + MARGIN < c.attempt + l.duration {
      InstallOutcome(c.owner, l, c.attempt + l.duration, t.install);
    }
  }

  lemma ReceiveClose(b: Client, mac: Mac, t: Tick, slack: int)
    requires Owned(b.owner) && InOrder(t) && Close(b.owner, slack) && Quick(t, slack) && Receive(b, mac, t).1 == Again
    ensures Close(Receive(b, mac, t).0.owner, slack)
  {
    hide Owned, LogInv, MayInstall, Withdraw, Clearance, Accept, Message, SoundLease, Packet, Broadcast, Lifetime;
    hide Quick;
    WithdrawLease(b.owner, t.nak);
    if t.packet.Some? && Message(b, mac, t).Some? {
      var (kind, l) := Message(b, mac, t).value;
      MessageIsSound(b, mac, t);
      if Grants(b, kind, l) && !(b.phase == Selecting && kind == OFFER) {
        if l.SameNet(b.owner.lease) {
          SameNetMayInstall(b.owner, l);
          AcceptClose(b, mac, t, l, false, slack);
        } else {
          ClearanceKeeps(b, mac, t, l);
          ClearanceLeaves(b, mac, t, l);
          if Clearance(b, mac, t, l).1 == Go {
            AcceptClose(Clearance(b, mac, t, l).0, mac, t, l, true, slack);
          }
        }
      }
      SentLifetime(b, TakeOffer(b, mac, t, l).0.owner);
    }
  }

  lemma ClearanceLeaves(c: Client, mac: Mac, t: Tick, l: Lease)
    requires l.address.Some?
    ensures var (c', f) := Clearance(c, mac, t, l); !f.Stop? ==> c'.owner.lease.address.None?
  {
    hide Withdraw, Probe, Packet, Broadcast;
    WithdrawLease(c.owner, t.change);
  }

  lemma SentLifetime(c: Client, o: Owner)
    ensures o.world == c.owner.world && o.lease == c.owner.lease ==> Lifetime(o) == Lifetime(c.owner)
  {
  }

  lemma PassClose(c: Client, mac: Mac, t: Tick, slack: int)
    requires Owned(c.owner) && InOrder(t) && Close(c.owner, slack) && Quick(t, slack) && Pass(c, mac, t).1 == Again
    ensures Close(Pass(c, mac, t).0.owner, slack)
  {
    hide Owned, LogInv, KeepLease, Transmit, Receive, Lifetime, Quick;
    KeepLeaseKeeps(c, mac, t);
    KeepLeaseDecides(c, mac, t);
    KeepLeaseClose(c, mac, t, slack);
    var c1 := KeepLease(c, mac, t).0;
    TransmitKeeps(c1, mac, t);
    SendingKeepsLease(c1, mac, t);
    SentLifetime(c1, Transmit(c1, mac, t).0.owner);
    if Transmit(c1, mac, t).1 == Go {
      ReceiveClose(Transmit(c1, mac, t).0, mac, t, slack);
    }
  }

  /** In every run whose installations are prompt, every phase after an acknowledgement holds a lease and the authorization
      on disk ends no later than the lease; and when the kernel handles each lifetime within the slack, the address is
      forgotten no later than that after the lease. */
  lemma {:induction false} RunStaysHealthy(c: Client, mac: Mac, ticks: seq<Tick>, slack: int)
    requires Healthy(c) && Close(c.owner, slack)
    requires forall i :: 0 <= i < |ticks| ==> InOrder(ticks[i]) && Prompt(ticks[i]) && Quick(ticks[i], slack)
    requires RunPasses(c, mac, ticks).1 == Again
    ensures var c' := RunPasses(c, mac, ticks).0;
      && Healthy(c') && Close(c'.owner, slack)
      && (c'.owner.lease.address.Some? && c'.owner.expires != 0 ==> Lifetime(c'.owner) <= c'.owner.expires + slack)
    decreases |ticks|
  {
    hide Owned, Pass, InOrder, Prompt, Quick, Lifetime;
    if ticks != [] {
      PassStaysHealthy(c, mac, ticks[0]);
      PassClose(c, mac, ticks[0], slack);
      RunStaysHealthy(Pass(c, mac, ticks[0]).0, mac, ticks[1..], slack);
    }
  }

  /** What granting whole seconds, and at most four, leaves of a lease: the latency that the kernel may take. */
  function Spare(left: int): int {
    if left < MAX_LIFETIME * SECOND then left % SECOND else left - MAX_LIFETIME * SECOND
  }

  /** Exactly when a heartbeat within the lease keeps the lifetime within it too: when the kernel handles the request with
      no more latency than the whole seconds granted leave of the lease. */
  lemma LifetimeWithinLease(o: Owner, now: int, io: BeatIO)
    requires Owned(o) && now <= io.at && now < o.expires && o.expires != 0
    requires Heartbeat(o, now, io).1 && Heartbeat(o, now, io).0.lease.address.Some?
    ensures var o' := Heartbeat(o, now, io).0;
      Lifetime(o') <= o'.expires <==> io.at - now <= Spare(o.expires - now)
  {
    hide Owned, Seconds, Heartbeat;
    HeartbeatLease(o, now, io);
    NoLeaseNoBeat(o, now, io);
    HeartbeatOutcome(o, now, io);
    SecondsAndSpare(o.expires, now);
  }

  lemma SecondsAndSpare(expires: int, now: int)
    requires now < expires && expires != 0
    ensures Seconds(expires, now) * SECOND + Spare(expires - now) == expires - now
  {
  }

  /** A completed expiry check leaves nothing configured or advertised once the lease has ended, whatever an installation
      granted before. */
  lemma ExpiryEndsEverything(c: Client, mac: Mac, t: Tick)
    requires Owned(c.owner) && c.owner.lease.address.Some? && c.owner.expires <= t.now
    requires t.expire == WithdrawIO(true, Done, Done)
    ensures var o := KeepLease(c, mac, t).0.owner;
      o.lease.address == None && o.world.addresses == map[] && o.world.handoff == None && o.world.route == None
  {
    hide Heartbeat, Orderly, After, ArpConflict, Packet, Broadcast;
    WithdrawKeeps(c.owner, t.expire);
    var (c1, f1) := ExpireLease(c, t);
    NoLeaseNoBeat(c1.owner, t.now, t.beat);
  }

  /** Such heartbeats exist: the kernel handles the request after the lease ended, and a healthy client goes on. */
  lemma SlowKernelOutlivesLease(c: Client, t: Tick)
    requires Healthy(c) && InOrder(t) && c.owner.lease.address.Some? && t.now > c.heartbeat
    requires SECOND <= c.owner.expires - t.now && c.owner.expires <= t.beat.at && t.beat.address == Done && t.beat.written
    ensures var (c', f) := BeatLease(c, t);
      f == Go && Healthy(c') && c'.owner.lease.address.Some? && Lifetime(c'.owner) > c'.owner.expires
  {
    hide Owned, Seconds;
    SecondsWithinLease(c.owner.expires, t.now);
    HeartbeatOutcome(c.owner, t.now, t.beat);
    BeatHealthy(c, t);
  }

  /** The client starts healthy, with nothing held, advertised or requested. */
  lemma StartsHealthy()
    ensures Healthy(NEW_CLIENT) && Close(NEW_CLIENT.owner, 0) && SequenceInv(NEW_CLIENT.owner)
    ensures Backed(NEW_CLIENT) && Timed(NEW_CLIENT, true)
  {
  }

  /** A client that lost its lease inside an installation never recovers: no packet and no clock makes it act again. */
  lemma {:induction false} BoundWithoutLeaseIsStuck(c: Client, mac: Mac, ticks: seq<Tick>)
    requires c.phase == Bound && c.owner.lease.address.None?
    ensures var c' := RunPasses(c, mac, ticks).0; c'.owner == c.owner && c'.phase == Bound
    decreases |ticks|
  {
    hide Message, Granted;
    if ticks != [] {
      var (c1, f1) := Pass(c, mac, ticks[0]);
      assert c1.owner == c.owner && c1.phase == Bound;
      if f1 == Again {
        BoundWithoutLeaseIsStuck(c1, mac, ticks[1..]);
      }
    }
  }

  // ---- From the wire to the lease ------------------------------------------------------------------

  /** A well-formed acknowledgement in a well-formed envelope reaches the client as the lease it carries. */
  lemma AckArrives(c: Client, mac: Mac, t: Tick, l: Lease, timers: bool, source: Ip, destination: Ip, checksummed: bool)
    requires SoundLease(l) && l.duration % SECOND == 0
    requires if timers then l.renew % SECOND == 0 && l.rebind % SECOND == 0
             else l.renew == l.duration / 2 && l.rebind == l.duration * 7 / 8
    requires t.packet == Some(ServerPacket(source, destination, ServerReply(ACK, c.xid, mac, l, timers), checksummed))
    ensures Message(c, mac, t) == Some((ACK, l))
  {
    hide DhcpPayload, ServerPacket, Reply, ValidAddress, Encode;
    ServerSize(ACK, l, timers);
    RecoversPayload(source, destination, ServerReply(ACK, c.xid, mac, l, timers), checksummed);
    ReplyRoundTrip(ACK, c.xid, mac, l, timers);
  }

  /** The promise is really broken by some runs: a renewal whose refresh finishes just as the new lease ends, every
      call succeeding, leaves the client bound without a lease. */
  lemma SlowRenewalLosesLease(b: Client, mac: Mac, t: Tick, source: Ip, destination: Ip)
    requires Owned(b.owner) && b.phase == Renewing && SoundLease(b.owner.lease) && b.owner.lease.duration % SECOND == 0
    requires b.owner.lease.renew == b.owner.lease.duration / 2 && b.owner.lease.rebind == b.owner.lease.duration * 7 / 8
    requires t.packet == Some(ServerPacket(source, destination, ServerReply(ACK, b.xid, mac, b.owner.lease, false), true))
    requires t.checkAt + MARGIN < b.attempt + b.owner.lease.duration == t.install.now && t.install.now != 0
    requires t.install.overlapFree && t.install.beat.withdraw == WithdrawIO(true, Done, Done)
    ensures var (c', f) := Receive(b, mac, t); f == Again && c'.phase == Bound && c'.owner.lease.address.None?
  {
    hide Owned, ServerPacket, ServerReply, Message, ValidAddress;
    var l := b.owner.lease;
    AckArrives(b, mac, t, l, false, source, destination, true);
    assert Seconds(t.install.now, t.install.now) == 0;
    PrefixInRange(l);
  }

  /** And one whose refresh finishes a second after the new lease ended leaves the client bound with an authorization and
      an address that outlive the lease: the seconds left wrap around. They last until the next pass checks the expiry, or as
      granted if the process does not get there. */
  lemma LateRenewalOutlivesLease(b: Client, mac: Mac, t: Tick, source: Ip, destination: Ip)
    requires Owned(b.owner) && b.phase == Renewing && SoundLease(b.owner.lease) && b.owner.lease.duration % SECOND == 0
    requires b.owner.lease.renew == b.owner.lease.duration / 2 && b.owner.lease.rebind == b.owner.lease.duration * 7 / 8
    requires t.packet == Some(ServerPacket(source, destination, ServerReply(ACK, b.xid, mac, b.owner.lease, false), true))
    requires t.checkAt + MARGIN < b.attempt + b.owner.lease.duration == t.install.now - SECOND && t.install.now != SECOND
    requires t.install.overlapFree && t.install.now <= t.install.beat.at
    requires t.install.beat.address == Done && t.install.beat.written
    ensures var (c', f) := Receive(b, mac, t); var expires := b.attempt + b.owner.lease.duration;
      && f == Again && c'.phase == Bound && c'.owner.lease == b.owner.lease && c'.owner.expires == expires
      && c'.owner.world.handoff.Some? && c'.owner.world.handoff.value.validUntil > expires + SEVERAL_LIFETIMES
      && Lifetime(c'.owner) > expires + SEVERAL_LIFETIMES
  {
    hide Owned, Message, ServerPacket, ServerReply, ValidAddress, Heartbeat, Seconds;
    var l, expires := b.owner.lease, b.attempt + b.owner.lease.duration;
    AckArrives(b, mac, t, l, false, source, destination, true);
    PrefixInRange(l);
    LateSeconds(expires);
    LateBeat(b.owner, expires, t.install);
  }

  lemma LateSeconds(expires: int)
    requires expires != 0
    ensures Seconds(expires, expires + SECOND) == U32_WRAP - 1
  {
    assert SECOND / SECOND == 1 && (-1) % U32_WRAP == U32_WRAP - 1;
  }

  lemma LateBeat(o: Owner, expires: int, io: InstallIO)
    requires Owned(o) && o.lease.address.Some? && io.overlapFree && io.now <= io.beat.at
    requires Seconds(expires, io.now) >= 1 && io.beat.address == Done && io.beat.written
    ensures var (o', ok) := Install(o, o.lease, expires, io);
      && ok && o'.lease == o.lease && o'.expires == expires && o'.world.handoff.Some?
      && o'.world.handoff.value.validUntil + HALF == io.now + Seconds(expires, io.now) * SECOND
      && Lifetime(o') == io.beat.at + Seconds(expires, io.now) * SECOND
  {
    hide Seconds, Orderly, After;
    InstallOutcome(o, o.lease, expires, io);
  }

  // ---- Sequence numbers over runs ------------------------------------------------------------------

  /** Every generation drawn differs from all that were written before. */
  ghost predicate FreshGenerations(c: Client, mac: Mac, ticks: seq<Tick>)
    decreases |ticks|
  {
    ticks != [] ==>
      (&& NewGeneration(BeforeReceive(c, mac, ticks[0]).0.owner, ticks[0].install.generation)
       && FreshGenerations(Pass(c, mac, ticks[0]).0, mac, ticks[1..]))
  }

  ghost predicate Counts(c: Client, c': Client, n: int) {
    SequenceInv(c'.owner) && 0 <= c'.owner.status.sequence <= c.owner.status.sequence + n
  }

  lemma SentCounts(c: Client, a: Action)
    requires SequenceInv(c.owner) && 0 <= c.owner.status.sequence && !a.WriteHandoff?
    ensures Counts(c, Log(c, a), 0)
  {
    DoKeepsSequence(c.owner, a);
  }

  lemma KeepLeaseCounts(c: Client, mac: Mac, t: Tick)
    requires SequenceInv(c.owner) && 0 <= c.owner.status.sequence < U64_WRAP - 1
    ensures Counts(c, KeepLease(c, mac, t).0, 1)
  {
    hide SequenceInv, Withdraw, Heartbeat, ArpConflict, Packet, Broadcast;
    WithdrawKeepsSequence(c.owner, t.expire);
    var c1 := ExpireLease(c, t).0;
    HeartbeatKeepsSequence(c1.owner, t.now, t.beat);
    var c3 := RenewLease(BeatLease(c1, t).0, t).0;
    SentCounts(c3, DeclineMessage(c3, mac, c3.owner.lease, t.now, t.declined));
  }

  lemma TransmitCounts(c: Client, mac: Mac, t: Tick)
    requires SequenceInv(c.owner) && 0 <= c.owner.status.sequence
    ensures Counts(c, Transmit(c, mac, t).0, 0)
  {
    hide SequenceInv, Packet, Broadcast, Envelope;
    var c' := Transmit(c, mac, t).0;
    if c'.owner.log != c.owner.log {
      SentCounts(c, c'.owner.log[|c'.owner.log| - 1]);
    }
  }

  lemma GrantedCounts(c: Client, mac: Mac, t: Tick, l: Lease)
    requires SequenceInv(c.owner) && 0 <= c.owner.status.sequence < U64_WRAP - 1 && l.address.Some?
    requires NewGeneration(c.owner, t.install.generation)
    ensures Counts(c, Granted(c, mac, t, l).0, 1)
  {
    hide SequenceInv, NewGeneration, Withdraw, Install, Probe, Packet, Broadcast;
    if l.SameNet(c.owner.lease) {
      InstallKeepsSequence(c.owner, l, c.attempt + l.duration, t.install);
    } else {
      WithdrawKeepsSequence(c.owner, t.change);
      WithdrawKeepsNew(c.owner, t.change, t.install.generation);
      var c1 := c.(owner := Withdraw(c.owner, t.change).0);
      SentCounts(c1, Probed(l.address.value));
      SentCounts(c1, DeclineMessage(c1, mac, l, t.probeAt, t.declined));
      var c2 := Log(c1, Probed(l.address.value));
      DoKeepsNew(c1.owner, Probed(l.address.value), t.install.generation);
      InstallKeepsSequence(c2.owner, l, c2.attempt + l.duration, t.install);
    }
  }

  lemma DoKeepsNew(o: Owner, a: Action, generation: Option<string>)
    requires NewGeneration(o, generation) && !a.WriteHandoff?
    ensures NewGeneration(Do(o, a), generation)
  {
  }

  lemma ReceiveCounts(c: Client, mac: Mac, t: Tick)
    requires SequenceInv(c.owner) && 0 <= c.owner.status.sequence < U64_WRAP - 1
    requires NewGeneration(c.owner, t.install.generation)
    ensures Counts(c, Receive(c, mac, t).0, 1)
  {
    hide SequenceInv, NewGeneration, Withdraw, Granted, Message, SoundLease, Packet, Broadcast;
    WithdrawKeepsSequence(c.owner, t.nak);
    if t.packet.Some? && Message(c, mac, t).Some? {
      var (kind, l) := Message(c, mac, t).value;
      MessageIsSound(c, mac, t);
      if l.address.Some? {
        GrantedCounts(c, mac, t, l);
      }
      var c1 := TakeOffer(c, mac, t, l).0;
      SentCounts(c, c1.owner.log[|c1.owner.log| - 1]);
    }
  }

  /** Within a generation the sequence numbers written in a run strictly increase. */
  lemma {:induction false} RunCounts(c: Client, mac: Mac, ticks: seq<Tick>)
    requires SequenceInv(c.owner) && 0 <= c.owner.status.sequence
    requires c.owner.status.sequence + 2 * |ticks| < U64_WRAP - 1 && FreshGenerations(c, mac, ticks)
    ensures SequenceInv(RunPasses(c, mac, ticks).0.owner) && Growing(RunPasses(c, mac, ticks).0.owner.log)
    decreases |ticks|
  {
    hide NewGeneration, Growing, KeepLease, Transmit, Receive;
    if ticks != [] {
      var t := ticks[0];
      KeepLeaseCounts(c, mac, t);
      var (c1, f1) := KeepLease(c, mac, t);
      if f1 == Go {
        TransmitCounts(c1, mac, t);
        var (c2, f2) := Transmit(c1, mac, t);
        if f2 == Go {
          ReceiveCounts(c2, mac, t);
        }
      }
      var (c', f) := Pass(c, mac, t);
      if f == Again {
        RunCounts(c', mac, ticks[1..]);
      }
    }
  }
}
