/** The owner of one interface address: kernel lifetimes, the handoff file and the rules that tie them together.
    Every call into the kernel or the file system is an action in a log; the state of the outside world is what the
    logged actions made of it. */
module LeaseOwner {
  import opened Basics
  import opened NetConfig
  import opened Dhcp

  const HALF := SECOND / 2
  const MAX_LIFETIME := 4

  /** A kernel request is answered, fails without effect, or fails after taking effect. */
  datatype Effect = Done | Failed | FailedInPlace

  /** An address lifetime: the kernel clock when it was set and its length in seconds. */
  datatype Grant = Grant(at: int, seconds: int) {
    function Until(): int {
      at + seconds * SECOND
    }
  }

  datatype Action =
    | RemoveHandoff(removed: bool)
    | WriteHandoff(status: Status, written: bool)
    | DeleteRoute(router: Option<Ip>, effect: Effect)
    | AddRoute(router: Option<Ip>, effect: Effect)
    | DeleteAddress(net: (Ip, int), effect: Effect)
    | SetAddress(net: (Ip, int), grant: Grant, effect: Effect)
    | Probed(ip: Ip)
    | Sent(kind: Byte, xid: Xid, at: int, wire: seq<Byte>, out: bool)

  /** This process's addresses and their lifetimes, its default route, the handoff file, and the address that a
      probe last found free since anything was deleted or advertised. */
  datatype World = World(addresses: map<(Ip, int), Grant>, route: Option<Ip>, handoff: Option<Status>, cleared: Option<Ip>)

  const NOTHING := World(map[], None, None, None)

  function Perform(w: World, a: Action): World {
    match a
    case RemoveHandoff(removed) => if removed then w.(handoff := None) else w
    case WriteHandoff(status, written) => if written then w.(handoff := Some(status), cleared := None) else w
    case DeleteRoute(router, effect) => if effect == Failed then w else w.(route := None)
    case AddRoute(router, effect) => if effect == Failed then w else w.(route := router)
    case DeleteAddress(net, effect) =>
      if effect == Failed then w.(cleared := None) else w.(addresses := w.addresses - {net}, cleared := None)
    case SetAddress(net, grant, effect) => if effect == Failed then w else w.(addresses := w.addresses[net := grant])
    case Probed(ip) => w.(cleared := Some(ip))
    case Sent(_, _, _, _, _) => w
  }

  function After(log: seq<Action>): World {
    if log == [] then NOTHING else Perform(After(log[..|log| - 1]), log[|log| - 1])
  }

  /** The order of the agent's own actions. An address is held from when it is configured until it is deleted; one that is
      not held yet is configured only when nothing else is held or advertised and a probe found it free; a route is added
      only for such an address, before anything is advertised; probing happens only when nothing is held or advertised;
      and only the held address and route are advertised. */
  predicate Permitted(w: World, a: Action) {
    match a
    case SetAddress(net, _, _) =>
      net in w.addresses || (w.addresses == map[] && w.handoff == None && w.cleared == Some(net.0))
    case AddRoute(_, _) => w.handoff == None && w.cleared.Some? && forall n :: n in w.addresses ==> n.0 == w.cleared.value
    case Probed(_) => w.addresses == map[] && w.handoff == None
    case WriteHandoff(status, _) =>
      status.address.Some? && (status.address.value, status.prefix) in w.addresses && w.route == status.router
    case _ => true
  }

  ghost predicate Orderly(log: seq<Action>) {
    forall i :: 0 <= i < |log| ==> Permitted(After(log[..i]), log[i])
  }

  /** The kernel forgets an address when its lifetime ends: a refresh is in time only before that. */
  predicate InTime(w: World, a: Action) {
    a.SetAddress? && a.effect != Failed && a.net in w.addresses ==> a.grant.at < w.addresses[a.net].Until()
  }

  /** The discipline of the agent by the kernel's clock: what the kernel does not hold any more is configured only after a
      probe, too. */
  predicate Allowed(w: World, a: Action) {
    Permitted(w, a) && InTime(w, a)
  }

  ghost predicate Disciplined(log: seq<Action>) {
    forall i :: 0 <= i < |log| ==> Allowed(After(log[..i]), log[i])
  }

  // ---- The owner -----------------------------------------------------------------------------------

  datatype Owner = Owner(lease: Lease, expires: int, status: Status, world: World, log: seq<Action>)

  const NO_STATUS := Status("", 0, None, 0, None, 0)

  const NEW_OWNER := Owner(NO_LEASE, 0, NO_STATUS, NOTHING, [])

  function Do(o: Owner, a: Action): Owner {
    o.(world := Perform(o.world, a), log := o.log + [a])
  }

  datatype WithdrawIO = WithdrawIO(removed: bool, route: Effect, address: Effect)

  datatype BeatIO = BeatIO(withdraw: WithdrawIO, address: Effect, at: int, written: bool)

  datatype InstallIO = InstallIO(overlapFree: bool, withdraw: WithdrawIO, generation: Option<string>,
                                 address: Effect, at: int, route: Effect, undo: Effect, now: int, beat: BeatIO)

  function Held(l: Lease): (Ip, int)
    requires l.address.Some?
  {
    (l.address.value, l.prefix)
  }

  /** Removes the handoff first, then the route and the address; the lease is forgotten even when that fails. */
  function Withdraw(o: Owner, io: WithdrawIO): (Owner, bool) {
    var o1 := Do(o, RemoveHandoff(io.removed));
    if !io.removed then (o1, false)
    else if o.lease.address.None? then (o1, true)
    else
      (Do(Do(o1, DeleteRoute(o.lease.router, io.route)), DeleteAddress(Held(o.lease), io.address)).(lease := NO_LEASE),
       io.route == Done && io.address == Done)
  }

  /** The whole seconds left, at most four, as the 32-bit number that the kernel is given: Go's division truncates
      toward zero and its conversion to uint32 wraps. An expiry of 0 means never. */
  function Seconds(expires: int, now: int): int {
    var left := if expires != 0 && expires - now < MAX_LIFETIME * SECOND then expires - now else MAX_LIFETIME * SECOND;
    (if left >= 0 then left / SECOND else -(-left / SECOND)) % U32_WRAP
  }

  function Beat(status: Status, now: int, seconds: int): Status {
    status.(sequence := (status.sequence + 1) % U64_WRAP, validUntil := now + seconds * SECOND - HALF)
  }

  function Heartbeat(o: Owner, now: int, io: BeatIO): (Owner, bool) {
    if o.lease.address.None? then (o, true)
    else
      var seconds := Seconds(o.expires, now);
      if seconds < 1 then Withdraw(o, io.withdraw)
      else
        var o1 := Do(o, SetAddress(Held(o.lease), Grant(io.at, seconds), io.address));
        if io.address != Done then (o1, false)
        else
          var status := Beat(o.status, now, seconds);
          (Do(o1.(status := status), WriteHandoff(status, io.written)), io.written)
  }

  /** Replaces the network: withdraws the old one and configures the new one under a new generation. */
  function Replace(o: Owner, l: Lease, io: InstallIO): (Owner, bool)
    requires l.address.Some?
  {
    var (o1, gone) := Withdraw(o, io.withdraw);
    if !gone || io.generation.None? then (o1, false)
    else
      var o2 := Do(o1.(status := Status(io.generation.value, 0, l.address, l.prefix, l.router, 0)),
                   SetAddress(Held(l), Grant(io.at, MAX_LIFETIME), io.address));
      if io.address != Done then (o2, false)
      else
        var o3 := Do(o2, AddRoute(l.router, io.route));
        if io.route != Done then (Do(o3, DeleteAddress(Held(l), io.undo)), false) else (o3, true)
  }

  function Install(o: Owner, l: Lease, expires: int, io: InstallIO): (Owner, bool)
    requires l.address.Some?
  {
    if !io.overlapFree then (o, false)
    else
      var (o1, ready) := if l.SameNet(o.lease) then (o, true) else Replace(o, l, io);
      if !ready then (o1, false) else Heartbeat(o1.(lease := l, expires := expires), io.now, io.beat)
  }

  // ---- What every operation keeps ------------------------------------------------------------------

  ghost predicate LogInv(o: Owner) {
    o.world == After(o.log) && Orderly(o.log)
  }

  /** Between operations the process has configured exactly the leased address and its route and not deleted them, and a
      handoff file speaks of them. Whether the kernel still has the address is a matter of its lifetime. */
  ghost predicate Owned(o: Owner) {
    && LogInv(o)
    && (o.lease.address.None? ==> o.world.addresses == map[] && o.world.handoff == None)
    && (o.lease.address.Some? ==>
          && o.world.addresses.Keys == {Held(o.lease)} && o.world.route == o.lease.router
          && o.status.address == o.lease.address && o.status.prefix == o.lease.prefix && o.status.router == o.lease.router)
    && (o.world.handoff.Some? ==> o.world.handoff.value == o.status && HandoffSound(o))
  }

  /** The authorization ends at least half a second before the kernel forgets the address. */
  ghost predicate HandoffSound(o: Owner)
    requires o.world.handoff.Some? && o.lease.address.Some? && Held(o.lease) in o.world.addresses
  {
    o.status.validUntil + HALF <= o.world.addresses[Held(o.lease)].Until()
  }

  lemma DoKeepsLog(o: Owner, a: Action)
    requires LogInv(o) && Permitted(o.world, a)
    ensures LogInv(Do(o, a))
  {
    var log := o.log + [a];
    assert log[..|log| - 1] == o.log;
    forall i | 0 <= i < |log|
      ensures Permitted(After(log[..i]), log[i])
    {
      assert log[..i] == o.log[..i];
    }
  }

  lemma WithdrawKeeps(o: Owner, io: WithdrawIO)
    requires Owned(o)
    ensures var (o', ok) := Withdraw(o, io);
      && LogInv(o') && (io.removed ==> o'.world.handoff == None && o'.lease.address == None)
      && (ok ==> Owned(o') && o'.lease.address == None && o'.world.handoff == None)
  {
    hide Orderly, After;
    var o1 := Do(o, RemoveHandoff(io.removed));
    DoKeepsLog(o, RemoveHandoff(io.removed));
    if io.removed && o.lease.address.Some? {
      var o2 := Do(o1, DeleteRoute(o.lease.router, io.route));
      DoKeepsLog(o1, DeleteRoute(o.lease.router, io.route));
      DoKeepsLog(o2, DeleteAddress(Held(o.lease), io.address));
      assert o2.world.addresses == o.world.addresses;
      assert io.address == Done ==> (o2.world.addresses - {Held(o.lease)}) == map[];
    }
  }

  /** Withdrawing keeps the order of actions, whatever state a failure left behind. */
  lemma WithdrawKeepsLog(o: Owner, io: WithdrawIO)
    requires LogInv(o)
    ensures LogInv(Withdraw(o, io).0)
  {
    hide Orderly, After;
    var o1 := Do(o, RemoveHandoff(io.removed));
    DoKeepsLog(o, RemoveHandoff(io.removed));
    if io.removed && o.lease.address.Some? {
      DoKeepsLog(o1, DeleteRoute(o.lease.router, io.route));
      DoKeepsLog(Do(o1, DeleteRoute(o.lease.router, io.route)), DeleteAddress(Held(o.lease), io.address));
    }
  }

  /** After a completed heartbeat the handoff file, if there is one, is the current status and names the configured
      address; the lifetime outlasts it by half a second and the time the kernel call took. */
  lemma HeartbeatKeeps(o: Owner, now: int, io: BeatIO)
    requires Owned(o) && now <= io.at
    ensures var (o', ok) := Heartbeat(o, now, io);
      && LogInv(o')
      && (ok ==> Owned(o') && (o'.lease == o.lease || o'.lease.address == None)
                 && (o'.lease.address.Some? ==>
                       (&& o'.expires == o.expires && o'.world.handoff == Some(o'.status)
                        && o'.world.addresses[Held(o'.lease)].Until() == o'.status.validUntil + HALF + (io.at - now))))
  {
    hide Orderly, After, Seconds;
    WithdrawKeeps(o, io.withdraw);
    if o.lease.address.Some? && Seconds(o.expires, now) >= 1 {
      var seconds := Seconds(o.expires, now);
      var a := SetAddress(Held(o.lease), Grant(io.at, seconds), io.address);
      var o1 := Do(o, a);
      DoKeepsLog(o, a);
      if io.address == Done {
        var status := Beat(o.status, now, seconds);
        DoKeepsLog(o1.(status := status), WriteHandoff(status, io.written));
        assert o1.world.addresses.Keys == {Held(o.lease)};
      }
    }
  }

  /** Within the lease the lifetime is at most four seconds and never reaches past the expiry. One second after the
      expiry, and not before, the conversion to an unsigned number makes it enormous. */
  lemma SecondsWithinLease(expires: int, now: int)
    requires expires - now > -(U32_WRAP - MAX_LIFETIME - 1) * SECOND
    ensures 0 <= Seconds(expires, now) < U32_WRAP
    ensures Seconds(expires, now) <= MAX_LIFETIME <==> expires == 0 || expires - now > -SECOND
    ensures expires != 0 && expires - now > -SECOND && Seconds(expires, now) >= 1 ==>
            now + Seconds(expires, now) * SECOND <= expires
    ensures Seconds(expires, now) < 1 <==> expires != 0 && -SECOND < expires - now < SECOND
  {
    if expires != 0 && expires - now <= -SECOND {
      var k := -(expires - now) / SECOND;
      assert 1 <= k < U32_WRAP - MAX_LIFETIME;
      assert (-k) % U32_WRAP == U32_WRAP - k;
    }
  }

  /** Installing a network that is already held refreshes it; a different one needs an empty interface and a probe
      that found the address free. */
  ghost predicate MayInstall(o: Owner, l: Lease) {
    && l.address.Some?
    && (!l.SameNet(o.lease) ==> o.lease.address == None && o.world.cleared == l.address)
  }

  lemma InstallKeeps(o: Owner, l: Lease, expires: int, io: InstallIO)
    requires Owned(o) && MayInstall(o, l) && io.now <= io.beat.at
    ensures var (o', ok) := Install(o, l, expires, io);
      LogInv(o') && (ok ==> Owned(o') && (o'.lease.address == None || (o'.lease == l && o'.expires == expires)))
  {
    hide Orderly, After, Heartbeat, Withdraw;
    if io.overlapFree {
      if l.SameNet(o.lease) {
        HeartbeatKeeps(o.(lease := l, expires := expires), io.now, io.beat);
      } else {
        ReplaceKeeps(o, l, io);
        if Replace(o, l, io).1 {
          HeartbeatKeeps(Replace(o, l, io).0.(lease := l, expires := expires), io.now, io.beat);
        }
      }
    }
  }

  lemma ReplaceKeeps(o: Owner, l: Lease, io: InstallIO)
    requires Owned(o) && o.lease.address == None && l.address.Some? && o.world.cleared == l.address
    ensures var (o', ok) := Replace(o, l, io);
      && LogInv(o') && (ok ==> Owned(o'.(lease := l)) && o'.world.handoff == None)
  {
    hide Orderly, After;
    WithdrawKeeps(o, io.withdraw);
    var (o1, gone) := Withdraw(o, io.withdraw);
    if gone && io.generation.Some? {
      var a := SetAddress(Held(l), Grant(io.at, MAX_LIFETIME), io.address);
      var named := o1.(status := Status(io.generation.value, 0, l.address, l.prefix, l.router, 0));
      DoKeepsLog(named, a);
      var o2 := Do(named, a);
      DoKeepsLog(o2, AddRoute(l.router, io.route));
      DoKeepsLog(Do(o2, AddRoute(l.router, io.route)), DeleteAddress(Held(l), io.undo));
    }
  }

  // ---- Sequence numbers ----------------------------------------------------------------------------

  predicate Earlier(a: Action, b: Action) {
    a.WriteHandoff? && b.WriteHandoff? && a.status.generation == b.status.generation ==>
      a.status.sequence < b.status.sequence
  }

  /** Within a generation every record written is newer than all earlier ones. */
  ghost predicate Growing(log: seq<Action>) {
    forall i, j :: 0 <= i < j < |log| ==> Earlier(log[i], log[j])
  }

  predicate NotAfter(a: Action, status: Status) {
    a.WriteHandoff? && a.status.generation == status.generation ==> a.status.sequence <= status.sequence
  }

  ghost predicate SequenceInv(o: Owner) {
    Growing(o.log) && forall i :: 0 <= i < |o.log| ==> NotAfter(o.log[i], o.status)
  }

  predicate Unused(a: Action, generation: string) {
    a.WriteHandoff? ==> a.status.generation != generation
  }

  /** A drawn generation does not repeat one that was written before. */
  ghost predicate NewGeneration(o: Owner, generation: Option<string>) {
    generation.Some? ==> forall i :: 0 <= i < |o.log| ==> Unused(o.log[i], generation.value)
  }

  lemma WithdrawKeepsNew(o: Owner, io: WithdrawIO, generation: Option<string>)
    requires NewGeneration(o, generation)
    ensures NewGeneration(Withdraw(o, io).0, generation)
  {
  }

  lemma DoKeepsSequence(o: Owner, a: Action)
    requires SequenceInv(o)
    requires a.WriteHandoff? ==>
               (a.status == o.status && forall i :: 0 <= i < |o.log| ==> Earlier(o.log[i], a))
    ensures SequenceInv(Do(o, a))
  {
  }

  lemma WithdrawKeepsSequence(o: Owner, io: WithdrawIO)
    requires SequenceInv(o)
    ensures var (o', ok) := Withdraw(o, io);
      SequenceInv(o') && o'.status == o.status
  {
    hide SequenceInv;
    var o1 := Do(o, RemoveHandoff(io.removed));
    DoKeepsSequence(o, RemoveHandoff(io.removed));
    if io.removed && o.lease.address.Some? {
      var o2 := Do(o1, DeleteRoute(o.lease.router, io.route));
      DoKeepsSequence(o1, DeleteRoute(o.lease.router, io.route));
      DoKeepsSequence(o2, DeleteAddress(Held(o.lease), io.address));
      OnlyLog(Do(o2, DeleteAddress(Held(o.lease), io.address)), NO_LEASE, o.expires);
    }
  }

  /** The property speaks of the log and the status only. */
  lemma OnlyLog(o: Owner, l: Lease, expires: int)
    requires SequenceInv(o)
    ensures SequenceInv(o.(lease := l)) && SequenceInv(o.(lease := l, expires := expires))
  {
  }

  lemma HeartbeatKeepsSequence(o: Owner, now: int, io: BeatIO)
    requires SequenceInv(o) && 0 <= o.status.sequence < U64_WRAP - 1
    ensures var (o', ok) := Heartbeat(o, now, io);
      SequenceInv(o') && o.status.sequence <= o'.status.sequence <= o.status.sequence + 1
  {
    hide Seconds;
    WithdrawKeepsSequence(o, io.withdraw);
    if o.lease.address.Some? && Seconds(o.expires, now) >= 1 {
      var seconds := Seconds(o.expires, now);
      var a := SetAddress(Held(o.lease), Grant(io.at, seconds), io.address);
      DoKeepsSequence(o, a);
      var o1, status := Do(o, a), Beat(o.status, now, seconds);
      forall i | 0 <= i < |o1.log|
        ensures Earlier(o1.log[i], WriteHandoff(status, io.written)) && NotAfter(o1.log[i], status)
      {
        assert NotAfter(o1.log[i], o.status);
      }
      DoKeepsSequence(o1.(status := status), WriteHandoff(status, io.written));
    }
  }

  lemma InstallKeepsSequence(o: Owner, l: Lease, expires: int, io: InstallIO)
    requires SequenceInv(o) && l.address.Some? && 0 <= o.status.sequence < U64_WRAP - 1
    requires NewGeneration(o, io.generation)
    ensures var (o', ok) := Install(o, l, expires, io); SequenceInv(o') && 0 <= o'.status.sequence <= o.status.sequence + 1
  {
    hide SequenceInv, NewGeneration, Heartbeat, Withdraw;
    if io.overlapFree {
      if l.SameNet(o.lease) {
        OnlyLog(o, l, expires);
        HeartbeatKeepsSequence(o.(lease := l, expires := expires), io.now, io.beat);
      } else {
        ReplaceKeepsSequence(o, l, io);
        var (o1, ready) := Replace(o, l, io);
        if ready {
          OnlyLog(o1, l, expires);
          HeartbeatKeepsSequence(o1.(lease := l, expires := expires), io.now, io.beat);
        }
      }
    }
  }

  lemma ReplaceKeepsSequence(o: Owner, l: Lease, io: InstallIO)
    requires SequenceInv(o) && l.address.Some? && 0 <= o.status.sequence && NewGeneration(o, io.generation)
    ensures var (o', ok) := Replace(o, l, io);
      SequenceInv(o') && (o'.status == o.status || o'.status.sequence == 0) && (ok ==> o'.status.sequence == 0)
  {
    hide SequenceInv, NewGeneration;
    var (o1, gone) := Withdraw(o, io.withdraw);
    WithdrawKeepsSequence(o, io.withdraw);
    if gone && io.generation.Some? {
      var named := o1.(status := Status(io.generation.value, 0, l.address, l.prefix, l.router, 0));
      NewName(o, io.withdraw, io.generation.value, named.status);
      var a := SetAddress(Held(l), Grant(io.at, MAX_LIFETIME), io.address);
      DoKeepsSequence(named, a);
      DoKeepsSequence(Do(named, a), AddRoute(l.router, io.route));
      DoKeepsSequence(Do(Do(named, a), AddRoute(l.router, io.route)), DeleteAddress(Held(l), io.undo));
    }
  }

  lemma NewName(o: Owner, io: WithdrawIO, generation: string, status: Status)
    requires SequenceInv(o) && NewGeneration(o, Some(generation)) && status.generation == generation
    ensures SequenceInv(Withdraw(o, io).0.(status := status))
  {
    var o1 := Withdraw(o, io).0;
    WithdrawKeepsSequence(o, io);
    forall i | 0 <= i < |o1.log|
      ensures NotAfter(o1.log[i], status)
    {
      assert i < |o.log| ==> o1.log[i] == o.log[i] && Unused(o.log[i], generation);
    }
  }

  /** A renewal of the same network is the same network to the gateway; a replacement differs from every record written
      before. */
  lemma NetworkIdentity(o: Owner, l: Lease, expires: int, io: InstallIO, earlier: Action)
    requires l.address.Some? && NewGeneration(o, io.generation) && earlier in o.log && earlier.WriteHandoff?
    ensures var (o', ok) := Install(o, l, expires, io);
      && (l.SameNet(o.lease) ==> o'.status.SameNetwork(o.status))
      && (!l.SameNet(o.lease) && ok ==> !o'.status.SameNetwork(earlier.status))
  {
    hide Seconds;
    var i :| 0 <= i < |o.log| && o.log[i] == earlier;
    assert io.generation.Some? ==> Unused(o.log[i], io.generation.value);
  }

  /** A record written within the lease is accepted by the gateway from the moment of the heartbeat until it runs
      out, and by then the kernel still holds the address. */
  lemma WrittenStatusIsValid(o: Owner, now: int, io: BeatIO, reader: int)
    requires Owned(o) && o.lease.address.Some? && now <= io.at && io.address == Done && io.written
    requires |o.status.generation| == 32 && (forall c :: c in o.status.generation ==> '0' <= c <= '9' || 'a' <= c <= 'f')
    requires ValidAddress(o.lease.address, o.lease.prefix, o.lease.router)
    requires 0 <= o.status.sequence < U64_WRAP - 1
    requires Seconds(o.expires, now) in {1, 2, 3, 4}
    ensures var o' := Heartbeat(o, now, io).0; var w := o'.world;
      w.handoff.Some? && (now <= reader < w.handoff.value.validUntil ==>
        w.handoff.value.Valid(reader) && reader < w.addresses[Held(o.lease)].Until())
  {
    hide Seconds, After, Orderly, ValidAddress;
    HeartbeatKeeps(o, now, io);
  }
}
