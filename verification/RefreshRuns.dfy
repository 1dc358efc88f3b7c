/** The agent against the kernel's clock. An address has a lifetime of at most four seconds, so a process that is frozen
    for longer loses it without knowing; this module says exactly in which runs no such address is configured again. */
module RefreshRuns {
  import opened Basics
  import opened NetConfig
  import opened Ipv4
  import opened Dhcp
  import opened LeaseOwner
  import opened DhcpClient
  import opened LeaseRuns

  /** Every refresh of the log was handled before the lifetime it prolongs had ended. */
  ghost predicate RefreshedInTime(log: seq<Action>) {
    forall i :: 0 <= i < |log| ==> InTime(After(log[..i]), log[i])
  }

  predicate Tracks(o: Owner) {
    o.world == After(o.log)
  }

  lemma DisciplineIs(log: seq<Action>)
    ensures Disciplined(log) <==> Orderly(log) && RefreshedInTime(log)
  {
    hide Permitted, InTime, After;
    if Disciplined(log) {
      forall i | 0 <= i < |log|
        ensures Permitted(After(log[..i]), log[i]) && InTime(After(log[..i]), log[i])
      {
        assert Allowed(After(log[..i]), log[i]);
      }
    }
  }

  lemma DoInTime(o: Owner, a: Action)
    requires Tracks(o)
    ensures Tracks(Do(o, a)) && (RefreshedInTime(Do(o, a).log) <==> RefreshedInTime(o.log) && InTime(o.world, a))
  {
    hide InTime, Perform;
    var log := o.log + [a];
    assert log[..|log| - 1] == o.log;
    assert forall i :: 0 <= i <= |o.log| ==> log[..i] == o.log[..i];
    if RefreshedInTime(log) {
      forall i | 0 <= i < |o.log|
        ensures InTime(After(o.log[..i]), o.log[i])
      {
        assert InTime(After(log[..i]), log[i]);
      }
      assert InTime(After(log[..|o.log|]), log[|o.log|]);
    }
  }

  // ---- The operations of the owner -----------------------------------------------------------------

  /** If the heartbeat refreshes the address, the kernel still has it when it handles the request. */
  predicate BeatInTime(o: Owner, now: int, io: BeatIO) {
    o.lease.address.Some? && Seconds(o.expires, now) >= 1 && io.address != Failed ==> io.at < Lifetime(o)
  }

  /** The same for the refresh that ends an installation: of the network that is held, or of the one just configured. */
  predicate InstallInTime(o: Owner, l: Lease, expires: int, io: InstallIO)
    requires l.address.Some?
  {
    io.overlapFree ==>
      if l.SameNet(o.lease) then BeatInTime(o.(lease := l, expires := expires), io.now, io.beat)
      else Replace(o, l, io).1 && Seconds(expires, io.now) >= 1 && io.beat.address != Failed ==>
             io.beat.at < io.at + MAX_LIFETIME * SECOND
  }

  lemma WithdrawInTime(o: Owner, io: WithdrawIO)
    requires Tracks(o)
    ensures var o' := Withdraw(o, io).0; Tracks(o') && (RefreshedInTime(o'.log) <==> RefreshedInTime(o.log))
  {
    hide RefreshedInTime, After;
    var o1 := Do(o, RemoveHandoff(io.removed));
    DoInTime(o, RemoveHandoff(io.removed));
    if io.removed && o.lease.address.Some? {
      DoInTime(o1, DeleteRoute(o.lease.router, io.route));
      DoInTime(Do(o1, DeleteRoute(o.lease.router, io.route)), DeleteAddress(Held(o.lease), io.address));
    }
  }

  lemma HeartbeatInTime(o: Owner, now: int, io: BeatIO)
    requires Tracks(o) && (o.lease.address.Some? ==> Held(o.lease) in o.world.addresses)
    ensures var o' := Heartbeat(o, now, io).0;
      Tracks(o') && (RefreshedInTime(o'.log) <==> RefreshedInTime(o.log) && BeatInTime(o, now, io))
  {
    hide RefreshedInTime, After, Seconds;
    WithdrawInTime(o, io.withdraw);
    if o.lease.address.Some? && Seconds(o.expires, now) >= 1 {
      var seconds := Seconds(o.expires, now);
      var a, status := SetAddress(Held(o.lease), Grant(io.at, seconds), io.address), Beat(o.status, now, seconds);
      DoInTime(o, a);
      DoInTime(Do(o, a).(status := status), WriteHandoff(status, io.written));
    }
  }

  lemma ReplaceInTime(o: Owner, l: Lease, io: InstallIO)
    requires Owned(o) && o.lease.address == None && l.address.Some?
    ensures var (o', ok) := Replace(o, l, io);
      && Tracks(o') && (RefreshedInTime(o'.log) <==> RefreshedInTime(o.log))
      && (ok ==> Held(l) in o'.world.addresses && o'.world.addresses[Held(l)] == Grant(io.at, MAX_LIFETIME))
  {
    hide RefreshedInTime, After, Orderly;
    WithdrawInTime(o, io.withdraw);
    var o1 := Withdraw(o, io.withdraw).0;
    if io.generation.Some? {
      var named := o1.(status := Status(io.generation.value, 0, l.address, l.prefix, l.router, 0));
      var a := SetAddress(Held(l), Grant(io.at, MAX_LIFETIME), io.address);
      DoInTime(named, a);
      DoInTime(Do(named, a), AddRoute(l.router, io.route));
      DoInTime(Do(Do(named, a), AddRoute(l.router, io.route)), DeleteAddress(Held(l), io.undo));
    }
  }

  lemma InstallsInTime(o: Owner, l: Lease, expires: int, io: InstallIO)
    requires Owned(o) && MayInstall(o, l)
    ensures var o' := Install(o, l, expires, io).0;
      Tracks(o') && (RefreshedInTime(o'.log) <==> RefreshedInTime(o.log) && InstallInTime(o, l, expires, io))
  {
    hide RefreshedInTime, After, Orderly, Heartbeat, Withdraw, Replace, Seconds;
    if io.overlapFree {
      if l.SameNet(o.lease) {
        HeartbeatInTime(o.(lease := l, expires := expires), io.now, io.beat);
      } else {
        ReplaceInTime(o, l, io);
        var (o1, ready) := Replace(o, l, io);
        if ready {
          HeartbeatInTime(o1.(lease := l, expires := expires), io.now, io.beat);
        }
      }
    }
  }

  // ---- The steps of a pass -------------------------------------------------------------------------

  predicate KeepInTime(c: Client, t: Tick) {
    c.owner.lease.address.Some? && t.now < c.owner.expires && t.now > c.heartbeat ==> BeatInTime(c.owner, t.now, t.beat)
  }

  predicate AcceptInTime(c: Client, t: Tick, l: Lease)
    requires l.address.Some?
  {
    t.checkAt + MARGIN < c.attempt + l.duration ==> InstallInTime(c.owner, l, c.attempt + l.duration, t.install)
  }

  predicate GrantInTime(b: Client, mac: Mac, t: Tick, l: Lease)
    requires l.address.Some?
  {
    if l.SameNet(b.owner.lease) then AcceptInTime(b, t, l)
    else Clearance(b, mac, t, l).1 == Go ==> AcceptInTime(Clearance(b, mac, t, l).0, t, l)
  }

  predicate ReceiveInTime(b: Client, mac: Mac, t: Tick) {
    t.packet.Some? && Message(b, mac, t).Some? ==>
      var (kind, l) := Message(b, mac, t).value;
      l.address.Some? && Grants(b, kind, l) ==> GrantInTime(b, mac, t, l)
  }

  /** Every refresh of the pass reaches the kernel before the lifetime that it prolongs has ended. */
  predicate PassInTime(c: Client, mac: Mac, t: Tick) {
    var (b, f) := BeforeReceive(c, mac, t);
    KeepInTime(c, t) && (f == Go ==> ReceiveInTime(b, mac, t))
  }

  predicate RunInTime(c: Client, mac: Mac, ticks: seq<Tick>)
    decreases |ticks|
  {
    ticks != [] ==>
      var (c1, f1) := Pass(c, mac, ticks[0]);
      PassInTime(c, mac, ticks[0]) && (f1 == Again ==> RunInTime(c1, mac, ticks[1..]))
  }

  /** A step adds refreshes that are in time exactly under the condition. */
  ghost predicate Adds(c: Client, c': Client, condition: bool) {
    Tracks(c'.owner) && (RefreshedInTime(c'.owner.log) <==> RefreshedInTime(c.owner.log) && condition)
  }

  lemma OwnedTracks(o: Owner)
    requires Owned(o)
    ensures Tracks(o) && (o.lease.address.Some? ==> Held(o.lease) in o.world.addresses)
  {
    hide Orderly, After;
    assert o.lease.address.Some? ==> Held(o.lease) in o.world.addresses.Keys;
  }

  lemma SentInTime(c: Client, a: Action)
    requires Tracks(c.owner) && (a.Sent? || a.Probed?)
    ensures Adds(c, Log(c, a), true)
  {
    hide RefreshedInTime, After;
    DoInTime(c.owner, a);
  }

  lemma KeepLeaseInTime(c: Client, mac: Mac, t: Tick)
    requires Owned(c.owner)
    ensures Adds(c, KeepLease(c, mac, t).0, KeepInTime(c, t))
  {
    hide Owned, RefreshedInTime, Tracks, BeatInTime, Withdraw, Heartbeat, DeclineMessage, ArpConflict;
    OwnedTracks(c.owner);
    if c.owner.lease.address.Some? {
      WithdrawInTime(c.owner, t.expire);
      WithdrawLease(c.owner, t.expire);
      var (c1, f1) := ExpireLease(c, t);
      if f1 == Go {
        NoLeaseNoBeat(c1.owner, t.now, t.beat);
        if t.now < c.owner.expires {
          HeartbeatInTime(c.owner, t.now, t.beat);
        }
        var (c2, f2) := BeatLease(c1, t);
        var c3 := RenewLease(c2, t).0;
        SentInTime(c3, DeclineMessage(c3, mac, c3.owner.lease, t.now, t.declined));
      }
    }
  }

  lemma TransmitInTime(c: Client, mac: Mac, t: Tick)
    requires Tracks(c.owner)
    ensures Adds(c, Transmit(c, mac, t).0, true)
  {
    hide RefreshedInTime, Tracks, Packet, Broadcast, Envelope;
    var c' := Transmit(c, mac, t).0;
    if c'.owner.log != c.owner.log {
      SentInTime(c, c'.owner.log[|c'.owner.log| - 1]);
    }
  }

  lemma AcceptsInTime(c: Client, mac: Mac, t: Tick, l: Lease, changed: bool)
    requires Owned(c.owner) && l.address.Some? && MayInstall(c.owner, l)
    ensures Adds(c, Accept(c, mac, t, l, changed).0, AcceptInTime(c, t, l))
  {
    hide Owned, MayInstall, RefreshedInTime, Tracks, Install, InstallInTime;
    OwnedTracks(c.owner);
    InstallsInTime(c.owner, l, c.attempt + l.duration, t.install);
  }

  lemma ClearanceInTime(b: Client, mac: Mac, t: Tick, l: Lease)
    requires Tracks(b.owner) && l.address.Some?
    ensures Adds(b, Clearance(b, mac, t, l).0, true)
  {
    hide RefreshedInTime, Tracks, Withdraw, Probe, Packet, Broadcast;
    WithdrawInTime(b.owner, t.change);
    var c1 := b.(owner := Withdraw(b.owner, t.change).0);
    SentInTime(c1, Probed(l.address.value));
    SentInTime(c1, DeclineMessage(c1, mac, l, t.probeAt, t.declined));
  }

  lemma GrantedInTime(b: Client, mac: Mac, t: Tick, l: Lease)
    requires Owned(b.owner) && l.address.Some?
    ensures Adds(b, Granted(b, mac, t, l).0, GrantInTime(b, mac, t, l))
  {
    hide Owned, LogInv, MayInstall, RefreshedInTime, Tracks, Clearance, Accept, AcceptInTime;
    OwnedTracks(b.owner);
    if l.SameNet(b.owner.lease) {
      SameNetMayInstall(b.owner, l);
      AcceptsInTime(b, mac, t, l, false);
    } else {
      ClearanceInTime(b, mac, t, l);
      ClearanceKeeps(b, mac, t, l);
      var (c1, f1) := Clearance(b, mac, t, l);
      if f1 == Go {
        AcceptsInTime(c1, mac, t, l, true);
      }
    }
  }

  lemma ReceivesInTime(b: Client, mac: Mac, t: Tick)
    requires Owned(b.owner)
    ensures Adds(b, Receive(b, mac, t).0, ReceiveInTime(b, mac, t))
  {
    hide Owned, RefreshedInTime, Tracks, Withdraw, Granted, GrantInTime, Message, SoundLease, Packet, Broadcast;
    OwnedTracks(b.owner);
    WithdrawInTime(b.owner, t.nak);
    if t.packet.Some? && Message(b, mac, t).Some? {
      var (kind, l) := Message(b, mac, t).value;
      MessageIsSound(b, mac, t);
      if l.address.Some? {
        GrantedInTime(b, mac, t, l);
      }
      var c1 := TakeOffer(b, mac, t, l).0;
      SentInTime(b, c1.owner.log[|c1.owner.log| - 1]);
    }
  }

  lemma PassesInTime(c: Client, mac: Mac, t: Tick)
    requires Owned(c.owner) && InOrder(t)
    ensures Adds(c, Pass(c, mac, t).0, PassInTime(c, mac, t))
  {
    hide Owned, LogInv, RefreshedInTime, Tracks, KeepLease, Transmit, Receive, KeepInTime, ReceiveInTime;
    KeepLeaseInTime(c, mac, t);
    KeepLeaseKeeps(c, mac, t);
    var (c1, f1) := KeepLease(c, mac, t);
    if f1 == Go {
      TransmitInTime(c1, mac, t);
      TransmitKeeps(c1, mac, t);
      var (b, f) := Transmit(c1, mac, t);
      if f == Go {
        ReceivesInTime(b, mac, t);
      }
    }
  }

  // ---- Runs ----------------------------------------------------------------------------------------

  lemma {:induction false} RefreshesInTime(c: Client, mac: Mac, ticks: seq<Tick>)
    requires Owned(c.owner) && forall i :: 0 <= i < |ticks| ==> InOrder(ticks[i])
    ensures Adds(c, RunPasses(c, mac, ticks).0, RunInTime(c, mac, ticks))
    decreases |ticks|
  {
    hide Owned, RefreshedInTime, Tracks, Pass, PassInTime;
    OwnedTracks(c.owner);
    if ticks != [] {
      PassesInTime(c, mac, ticks[0]);
      PassKeeps(c, mac, ticks[0]);
      var (c1, f1) := Pass(c, mac, ticks[0]);
      if f1 == Again {
        RefreshesInTime(c1, mac, ticks[1..]);
      }
    }
  }

  /** A run keeps the discipline by the kernel's clock - no address that the kernel does not hold is configured without a
      probe that found it free - if and only if every refresh is handled before the lifetime that it prolongs has
      ended. */
  lemma RunIsDisciplined(c: Client, mac: Mac, ticks: seq<Tick>)
    requires Owned(c.owner) && forall i :: 0 <= i < |ticks| ==> InOrder(ticks[i])
    ensures Disciplined(RunPasses(c, mac, ticks).0.owner.log) <==> Disciplined(c.owner.log) && RunInTime(c, mac, ticks)
  {
    hide Owned, Orderly, Disciplined, RefreshedInTime, After, RunPasses, RunInTime;
    OwnedIsLogged(c.owner);
    RefreshesInTime(c, mac, ticks);
    RunKeeps(c, mac, ticks);
    DisciplineIs(c.owner.log);
    DisciplineIs(RunPasses(c, mac, ticks).0.owner.log);
  }

  /** A process that is not frozen for about a second is in time: the refresh after a heartbeat, within the lease and handled
      less than two seconds after that heartbeat read the clock, finds the address still there. */
  lemma NextBeatIsInTime(o: Owner, first: int, io: BeatIO, second: int, next: BeatIO)
    requires Owned(o) && first <= io.at && Heartbeat(o, first, io).1 && Heartbeat(o, first, io).0.lease.address.Some?
    requires first + SECOND < second < o.expires && next.at < first + 2 * SECOND
    ensures BeatInTime(Heartbeat(o, first, io).0, second, next)
  {
    hide Owned, Heartbeat;
    HeartbeatLease(o, first, io);
    NoLeaseNoBeat(o, first, io);
    HeartbeatOutcome(o, first, io);
  }

  /** A frozen process is not: when it goes on after its address ran out, more than a second before the lease ends, it
      configures the address again and goes on as a healthy client. No probe was made, so another host may have taken
      the address in the meantime. */
  lemma FrozenAgentReclaims(c: Client, t: Tick)
    requires Healthy(c) && InOrder(t) && c.owner.lease.address.Some? && t.now > c.heartbeat
    requires SECOND <= c.owner.expires - t.now && Lifetime(c.owner) <= t.beat.at
    requires t.beat.address == Done && t.beat.written
    ensures var (c', f) := BeatLease(c, t);
      f == Go && Healthy(c') && c'.owner.lease == c.owner.lease && t.beat.at < Lifetime(c'.owner) && !Disciplined(c'.owner.log)
  {
    hide Owned, Seconds, Orderly, Disciplined, RefreshedInTime;
    SecondsWithinLease(c.owner.expires, t.now);
    OwnedTracks(c.owner);
    HeartbeatOutcome(c.owner, t.now, t.beat);
    BeatHealthy(c, t);
    OwnedTracks(BeatLease(c, t).0.owner);
    HeartbeatInTime(c.owner, t.now, t.beat);
    DisciplineIs(BeatLease(c, t).0.owner.log);
  }
}
