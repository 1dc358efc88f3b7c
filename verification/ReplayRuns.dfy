/** Replay protection over whole runs: a nonce whose response changed the adoption state stays rejected, restarts
    included, until 128 later changes have reached the state file. */
module ReplayRuns {
  import opened Basics
  import opened Text
  import opened Hex
  import opened Adoption
  import opened Classify
  import opened Identities
  import opened Receipts
  import opened ReplayWindow
  import opened GatewaySpec
  import opened GatewayInvariant

  /** The nonce is in the list, with at most c entries after it. */
  ghost predicate Young(order: seq<Nonce>, nonce: Nonce, c: int) {
    exists age :: age <= c && HasAge(order, nonce, age)
  }

  ghost predicate TrackedState(env: Env, s: State, epoch: Epoch, nonce: Nonce, c: int) {
    && ValidState(env.parse, s) && EpochOf(s.stored.adoption) == Some(epoch)
    && Young(DecodeNonces(s.stored.nonces), nonce, c)
  }

  /** Memory and disk both belong to the epoch and both remember the nonce. */
  ghost predicate Tracked(env: Env, sys: System, epoch: Epoch, nonce: Nonce, c: int) {
    && epoch.gcm
    && sys.disk.state.Some? && TrackedState(env, sys.disk.state.value, epoch, nonce, c)
    && (sys.proc.Up? ==> MemInv(env, sys.proc.mem) && TrackedState(env, sys.proc.mem.persistent, epoch, nonce, c))
  }

  predicate StateInEpoch(s: State, epoch: Epoch) {
    EpochOf(s.stored.adoption) == Some(epoch)
  }

  ghost predicate SystemInEpoch(sys: System, epoch: Epoch) {
    && sys.disk.state.Some? && StateInEpoch(sys.disk.state.value, epoch)
    && (sys.proc.Up? ==> StateInEpoch(sys.proc.mem.persistent, epoch))
  }

  /** No state of the run leaves the key and mode of the epoch. */
  ghost predicate Unbroken(env: Env, sys: System, events: seq<Event>, epoch: Epoch)
    decreases |events|
  {
    SystemInEpoch(sys, epoch) && (events != [] ==> Unbroken(env, Step(env, sys, events[0]).0, events[1..], epoch))
  }

  predicate Lands(w: Write) {
    w.StateWrite? && w.result != Failed
  }

  /** Number of adoption changes that reached the state file. */
  function Landed(writes: seq<Write>): nat {
    if writes == [] then 0 else Landed(writes[..|writes| - 1]) + if Lands(writes[|writes| - 1]) then 1 else 0
  }

  lemma {:induction false} LandedSplits(a: seq<Write>, b: seq<Write>)
    ensures Landed(a + b) == Landed(a) + Landed(b)
  {
    if b == [] {
      assert a + b == a;
    } else {
      LandedSplits(a, b[..|b| - 1]);
      assert (a + b)[..|a + b| - 1] == a + b[..|b| - 1];
    }
  }

  lemma YoungAfterPush(order: seq<Nonce>, nonce: Nonce, other: Nonce, c: int)
    requires Bounded(order) && Young(order, nonce, c) && other !in order && c + 1 < MAX_NONCES
    ensures Young(Push(order, other), nonce, c + 1)
  {
    var age :| age <= c && HasAge(order, nonce, age);
    PushAges(order, nonce, other, age);
    assert HasAge(Push(order, other), nonce, age + 1);
  }

  lemma YoungIsIn(order: seq<Nonce>, nonce: Nonce, c: int)
    requires Young(order, nonce, c)
    ensures nonce in order
  {
    var age :| age <= c && HasAge(order, nonce, age);
    assert order[|order| - 1 - age] == nonce;
  }

  /** A changed state inside a GCM epoch carries the old nonces and the new one. */
  lemma ChangedStateTracked(env: Env, mem: Memory, next: Adoption, other: Nonce, epoch: Epoch, nonce: Nonce, c: int)
    requires MemInv(env, mem) && next.Valid(env.parse) && next != mem.persistent.stored.adoption
    requires epoch.gcm && TrackedState(env, mem.persistent, epoch, nonce, c) && EpochOf(next) == Some(epoch)
    requires !mem.window.Contains(other) && c + 1 < MAX_NONCES
    ensures TrackedState(env, mem.persistent.(stored := NextStored(mem, next, other)), epoch, nonce, c + 1)
  {
    StoredStaysValid(env, mem, next, other);
    ValidKeyHasEpoch(mem.persistent.stored.adoption);
    var pushed := mem.window.Accept(other, true).protected;
    YoungAfterPush(mem.window.protected, nonce, other, c);
    DecodeEncodeNonces(pushed);
  }

  lemma TrackedLonger(env: Env, s: State, epoch: Epoch, nonce: Nonce, c: int, d: int)
    requires TrackedState(env, s, epoch, nonce, c) && c <= d
    ensures TrackedState(env, s, epoch, nonce, d)
  {
    var age :| age <= c && HasAge(DecodeNonces(s.stored.nonces), nonce, age);
  }

  /** The state that an exchange hands to the saver, when it does. */
  ghost function Proposed(env: Env, mem: Memory, input: Input): State {
    if input.exchange.Decoded? && Decide(env, mem, input.exchange.body).Ok? then
      mem.persistent.(stored := NextStored(mem, Decide(env, mem, input.exchange.body).value.next, input.exchange.nonce))
    else mem.persistent
  }

  /** An exchange either leaves both stored states alone, or puts the proposed state on disk and possibly in memory. */
  lemma InformStates(env: Env, mem: Memory, disk: Disk, input: Input)
    requires MemInv(env, mem)
    ensures var r, state := InformStep(env, mem, disk, input), Proposed(env, mem, input);
      || (r.mem.persistent == mem.persistent && r.disk.state == disk.state)
      || (&& Landed(r.writes) == 1 && r.disk.state == Some(state) && (r.mem.persistent == mem.persistent || r.mem.persistent == state)
          && state.stored.adoption != mem.persistent.stored.adoption
          && input.exchange.Decoded? && Decide(env, mem, input.exchange.body).Ok?
          && (mem.persistent.stored.adoption.useGCM ==> !mem.window.Contains(input.exchange.nonce)))
  {
    hide InformStep, MemInv, Ready, AcceptMarker, MarkerWrite, CommitStep, Decide, NextStored, ClassifyTarget;
    hide ClassifyReceipt, ReceiptsEligible, Landed;
    InformIsAnswer(env, mem, disk, input);
    if Ready(mem, input) && input.exchange.Decoded? {
      var nonce, body := input.exchange.nonce, input.exchange.body;
      var r := InformStep(env, mem, disk, input);
      if r == AdoptionStep(env, mem, disk, input, nonce, body) && Decide(env, mem, body).Ok? {
        DecideShape(env, mem, body);
        CommitStates(env, mem, disk, input, nonce, Decide(env, mem, body).value);
      }
    }
  }

  lemma CommitStates(env: Env, mem: Memory, disk: Disk, input: Input, nonce: Nonce, d: Decision)
    requires MemInv(env, mem) && d.next.Valid(env.parse)
    ensures var r := CommitStep(env, mem, disk, input, nonce, d.next, d.outcome, d.volatile);
      var state := mem.persistent.(stored := NextStored(mem, d.next, nonce));
      || (r.mem.persistent == mem.persistent && r.disk.state == disk.state)
      || (&& Landed(r.writes) == 1 && r.disk.state == Some(state) && (r.mem.persistent == mem.persistent || r.mem.persistent == state)
          && d.next != mem.persistent.stored.adoption)
  {
    hide ValidState, Rebase, ConfigEpoch, TargetEpoch, AuthorizeTransition, MemInv, NextStored;
    StoredStaysValid(env, mem, d.next, nonce);
    var r := CommitStep(env, mem, disk, input, nonce, d.next, d.outcome, d.volatile);
    if r.writes != [] {
      assert r.writes[..|r.writes| - 1] == [];
    }
  }

  /** One event keeps both copies of the nonce, each aged by at most the change that landed. */
  lemma StepTracks(env: Env, sys: System, e: Event, epoch: Epoch, nonce: Nonce, c: int)
    requires Tracked(env, sys, epoch, nonce, c)
    requires SystemInEpoch(Step(env, sys, e).0, epoch)
    requires c + Landed(Step(env, sys, e).1) < MAX_NONCES
    ensures Tracked(env, Step(env, sys, e).0, epoch, nonce, c + Landed(Step(env, sys, e).1))
  {
    hide InformStep, MemInv, Landed;
    match e
    case Stop =>
    case Start(input) =>
      var s := sys.disk.state.value;
      var r := StartStep(env, sys.disk, input);
      assert Meets(s.identity, input.request) ==>
               LoadOrCreate(env.parse, input.config, input.request, sys.disk, input.save) == (Some(s), sys.disk, []);
      StartEstablishesInv(env, sys.disk, input);
    case Inform(input) =>
      if sys.proc.Up? {
        var mem := sys.proc.mem;
        InformTracks(env, mem, sys.disk, input, epoch, nonce, c);
      }
  }

  lemma InformTracks(env: Env, mem: Memory, disk: Disk, input: Input, epoch: Epoch, nonce: Nonce, c: int)
    requires Tracked(env, System(Up(mem), disk), epoch, nonce, c)
    requires var r := InformStep(env, mem, disk, input);
      SystemInEpoch(System(Up(r.mem), r.disk), epoch) && c + Landed(r.writes) < MAX_NONCES
    ensures var r := InformStep(env, mem, disk, input);
      Tracked(env, System(Up(r.mem), r.disk), epoch, nonce, c + Landed(r.writes))
  {
    hide InformStep, Landed, WritesValid, OnlyBlocked, TrackedState, Decide, MemInv;
    var r, state := InformStep(env, mem, disk, input), Proposed(env, mem, input);
    InformKeepsInv(env, mem, disk, input);
    InformStates(env, mem, disk, input);
    TrackedLonger(env, mem.persistent, epoch, nonce, c, c + Landed(r.writes));
    TrackedLonger(env, disk.state.value, epoch, nonce, c, c + Landed(r.writes));
    if r.mem.persistent != mem.persistent || r.disk.state != disk.state {
      var d := Decide(env, mem, input.exchange.body).value;
      DecideShape(env, mem, input.exchange.body);
      GcmIsOn(env, mem, epoch);
      ChangedStateTracked(env, mem, d.next, input.exchange.nonce, epoch, nonce, c);
    }
  }

  lemma {:induction false} RunTracks(env: Env, sys: System, events: seq<Event>, epoch: Epoch, nonce: Nonce, c: int)
    requires Tracked(env, sys, epoch, nonce, c)
    requires Unbroken(env, sys, events, epoch)
    requires c + Landed(Writes(env, sys, events)) < MAX_NONCES
    ensures Tracked(env, Run(env, sys, events), epoch, nonce, c + Landed(Writes(env, sys, events)))
    decreases |events|
  {
    hide Step, Tracked;
    if events != [] {
      var (next, writes) := Step(env, sys, events[0]);
      LandedSplits(writes, Writes(env, next, events[1..]));
      StepTracks(env, sys, events[0], epoch, nonce, c);
      RunTracks(env, next, events[1..], epoch, nonce, c + Landed(writes));
    }
  }

  /** A committed response that changed the adoption state inside its epoch. */
  ghost predicate CommittedChange(env: Env, mem: Memory, disk: Disk, input: Input, epoch: Epoch) {
    var r := InformStep(env, mem, disk, input);
    && input.exchange.Decoded? && r.reply.Accepted?
    && r.mem.persistent.stored.adoption != mem.persistent.stored.adoption
    && epoch.gcm && StateInEpoch(mem.persistent, epoch) && StateInEpoch(r.mem.persistent, epoch)
  }

  /** Such responses exist: over HTTPS, a new configuration version under a fresh nonce is committed. */
  lemma TrustedChangeIsCommitted(env: Env, mem: Memory, disk: Disk, input: Input, version: string)
    requires MemInv(env, mem) && Ready(mem, input) && input.exchange.Decoded? && input.save == Saved
    requires !Known(mem, input.exchange.nonce)
    requires var current, body := mem.persistent.stored.adoption, input.exchange.body;
      && current.adopted && current.useGCM && HasScheme(env.parse, current.informURL, "https")
      && ValidConfigValue(version, 128) && version != current.cfgVersion
      && 0 < body.size <= MAX_RESPONSE && body.response.Some? && body.response.value.kind == "setparam"
      && ApplyMgmtText(env.parse, current, body.response.value.mgmtCfg) == Some(current.(cfgVersion := version))
    ensures CommittedChange(env, mem, disk, input, EpochOf(mem.persistent.stored.adoption).value)
  {
    hide InformStep, MemInv, Ready, Decide, CommitStep, Known, ApplyMgmtText, ClassifyReceipt, ClassifyTarget, EpochOf;
    var current, nonce, body := mem.persistent.stored.adoption, input.exchange.nonce, input.exchange.body;
    TrustedChangeIsDecided(env, mem, body, version);
    var d := Decide(env, mem, body).value;
    InformIsAnswer(env, mem, disk, input);
    TrustedChangeIsSaved(env, mem, disk, input, nonce, d, version);
  }

  lemma TrustedChangeIsDecided(env: Env, mem: Memory, body: Body, version: string)
    requires MemInv(env, mem)
    requires var current := mem.persistent.stored.adoption;
      && current.adopted && current.useGCM && HasScheme(env.parse, current.informURL, "https")
      && ValidConfigValue(version, 128)
      && 0 < body.size <= MAX_RESPONSE && body.response.Some? && body.response.value.kind == "setparam"
      && ApplyMgmtText(env.parse, current, body.response.value.mgmtCfg) == Some(current.(cfgVersion := version))
    ensures var current, d := mem.persistent.stored.adoption, Decide(env, mem, body);
      && d.Ok? && d.value.next == current.(cfgVersion := version) && d.value.next.Valid(env.parse)
      && !ReceiptsEligible(env, mem.config, current, current.useGCM)
  {
    hide ApplyMgmtText, HasOnlyCfgVersion, Ignored, WindowInv, SlotInv;
    SetParamIsToken("setparam");
  }

  lemma TrustedChangeIsSaved(env: Env, mem: Memory, disk: Disk, input: Input, nonce: Nonce, d: Decision,
                             version: string)
    requires MemInv(env, mem) && mem.persistent.stored.adoption.useGCM && input.save == Saved
    requires d.next == mem.persistent.stored.adoption.(cfgVersion := version) && d.next.Valid(env.parse)
    requires version != mem.persistent.stored.adoption.cfgVersion
    ensures var r := CommitStep(env, mem, disk, input, nonce, d.next, d.outcome, d.volatile);
      && r.reply.Accepted? && r.mem.persistent.stored.adoption == d.next
      && EpochOf(d.next) == EpochOf(mem.persistent.stored.adoption)
      && EpochOf(d.next).Some? && EpochOf(d.next).value.gcm
  {
    hide ValidState, MemInv, Rebase, NextStored, ConfigEpoch, TargetEpoch, AuthorizeTransition;
    ValidKeyHasEpoch(d.next);
    StoredStaysValid(env, mem, d.next, nonce);
    WindowStaysValid(env, mem, d.next, nonce);
  }

  lemma CommittedIsTracked(env: Env, mem: Memory, disk: Disk, input: Input, epoch: Epoch)
    requires MemInv(env, mem) && CommittedChange(env, mem, disk, input, epoch)
    ensures var r := InformStep(env, mem, disk, input);
      Tracked(env, System(Up(r.mem), r.disk), epoch, input.exchange.nonce, 0)
  {
    hide InformStep, Landed, WritesValid, OnlyBlocked;
    var r, nonce := InformStep(env, mem, disk, input), input.exchange.nonce;
    InformKeepsInv(env, mem, disk, input);
    InformStates(env, mem, disk, input);
    DecideShape(env, mem, input.exchange.body);
    var d := Decide(env, mem, input.exchange.body).value;
    ValidKeyHasEpoch(mem.persistent.stored.adoption);
    var pushed := mem.window.Accept(nonce, true).protected;
    assert HasAge(pushed, nonce, 0);
    DecodeEncodeNonces(pushed);
    assert r.mem.persistent == mem.persistent.(stored := NextStored(mem, d.next, nonce));
    assert DecodeNonces(r.mem.persistent.stored.nonces) == pushed;
  }

  /** Replay protection. After a committed change, over any interleaving of answers, write failures of either kind,
      stops and starts that does not leave the key and mode: as long as fewer than 128 later changes have reached
      the state file, a response with the same nonce - whatever it carries - changes nothing, and if the gateway
      is ready to inform at all it is refused as a replay. Noops and receipts do not count. */
  lemma ReplayIsRejected(env: Env, mem: Memory, disk: Disk, first: Input, events: seq<Event>, again: Input,
                         epoch: Epoch)
    requires MemInv(env, mem) && CommittedChange(env, mem, disk, first, epoch)
    requires var r := InformStep(env, mem, disk, first);
      var sys := System(Up(r.mem), r.disk);
      && Unbroken(env, sys, events, epoch) && Landed(Writes(env, sys, events)) < MAX_NONCES
      && Run(env, sys, events).proc.Up?
    requires again.exchange.Decoded? && again.exchange.nonce == first.exchange.nonce
    ensures var r := InformStep(env, mem, disk, first);
      var end := Run(env, System(Up(r.mem), r.disk), events);
      InformStep(env, end.proc.mem, end.disk, again) ==
        StepResult(end.proc.mem, end.disk, Rejected(if Ready(end.proc.mem, again) then Replay else NotReady), [])
  {
    hide InformStep, Run, Writes, Unbroken, Landed, MemInv, TrackedState, Ready;
    var r, nonce := InformStep(env, mem, disk, first), first.exchange.nonce;
    var sys := System(Up(r.mem), r.disk);
    CommittedIsTracked(env, mem, disk, first, epoch);
    RunTracks(env, sys, events, epoch, nonce, 0);
    var end := Run(env, sys, events);
    TrackedIsReplay(env, end, again, epoch, nonce, Landed(Writes(env, sys, events)));
  }

  lemma TrackedIsReplay(env: Env, sys: System, input: Input, epoch: Epoch, nonce: Nonce, c: int)
    requires Tracked(env, sys, epoch, nonce, c) && sys.proc.Up?
    requires input.exchange.Decoded? && input.exchange.nonce == nonce
    ensures InformStep(env, sys.proc.mem, sys.disk, input) ==
            StepResult(sys.proc.mem, sys.disk, Rejected(if Ready(sys.proc.mem, input) then Replay else NotReady), [])
  {
    hide InformStep, Ready, ReceiptsEligible;
    InformIsAnswer(env, sys.proc.mem, sys.disk, input);
    ValidKeyHasEpoch(sys.proc.mem.persistent.stored.adoption);
    YoungIsIn(sys.proc.mem.window.protected, nonce, c);
  }

  // ---- The recent window over a run ----------------------------------------------------------------

  /** The nonces of the accepted exchanges of one process, in order. */
  ghost function AcceptedNonces(env: Env, mem: Memory, disk: Disk, inputs: seq<Input>): seq<Nonce>
    decreases |inputs|
  {
    if inputs == [] then []
    else
      var r := InformStep(env, mem, disk, inputs[0]);
      (if r.reply.Accepted? && inputs[0].exchange.Decoded? then [inputs[0].exchange.nonce] else []) +
        AcceptedNonces(env, r.mem, r.disk, inputs[1..])
  }

  ghost function MemoryAfter(env: Env, mem: Memory, disk: Disk, inputs: seq<Input>): Memory
    decreases |inputs|
  {
    if inputs == [] then mem
    else var r := InformStep(env, mem, disk, inputs[0]); MemoryAfter(env, r.mem, r.disk, inputs[1..])
  }

  ghost predicate StaysInEpoch(env: Env, mem: Memory, disk: Disk, inputs: seq<Input>, epoch: Epoch)
    decreases |inputs|
  {
    && StateInEpoch(mem.persistent, epoch)
    && (inputs != [] ==>
          var r := InformStep(env, mem, disk, inputs[0]); StaysInEpoch(env, r.mem, r.disk, inputs[1..], epoch))
  }

  /** Inside a GCM epoch an accepted exchange pushes its nonce, which was new; a rejected one leaves the window. */
  lemma StepWindow(env: Env, mem: Memory, disk: Disk, input: Input, epoch: Epoch)
    requires MemInv(env, mem) && epoch.gcm && StateInEpoch(mem.persistent, epoch)
    requires StateInEpoch(InformStep(env, mem, disk, input).mem.persistent, epoch)
    ensures var r := InformStep(env, mem, disk, input);
      if r.reply.Accepted? then
        && input.exchange.Decoded? && !mem.window.Contains(input.exchange.nonce)
        && r.mem.window.recent == Push(mem.window.recent, input.exchange.nonce)
      else r.mem.window == mem.window
  {
    hide InformStep, MemInv, Ready, AcceptMarker, MarkerWrite, CommitStep, Decide, ClassifyTarget, ClassifyReceipt;
    hide ReceiptsEligible, Push;
    InformIsAnswer(env, mem, disk, input);
    GcmIsOn(env, mem, epoch);
    if Ready(mem, input) && input.exchange.Decoded? {
      var nonce, body := input.exchange.nonce, input.exchange.body;
      if InformStep(env, mem, disk, input) == AdoptionStep(env, mem, disk, input, nonce, body) && Decide(env, mem, body).Ok? {
        DecideShape(env, mem, body);
        CommitWindow(env, mem, disk, input, nonce, Decide(env, mem, body).value, epoch);
      }
    }
  }

  lemma GcmIsOn(env: Env, mem: Memory, epoch: Epoch)
    requires MemInv(env, mem) && epoch.gcm && StateInEpoch(mem.persistent, epoch)
    ensures mem.persistent.stored.adoption.useGCM
  {
    ValidKeyHasEpoch(mem.persistent.stored.adoption);
  }

  lemma CommitWindow(env: Env, mem: Memory, disk: Disk, input: Input, nonce: Nonce, d: Decision, epoch: Epoch)
    requires MemInv(env, mem) && d.next.Valid(env.parse) && epoch.gcm && StateInEpoch(mem.persistent, epoch)
    requires StateInEpoch(CommitStep(env, mem, disk, input, nonce, d.next, d.outcome, d.volatile).mem.persistent, epoch)
    ensures var r := CommitStep(env, mem, disk, input, nonce, d.next, d.outcome, d.volatile);
      if r.reply.Accepted? then r.mem.window.recent == Push(mem.window.recent, nonce) else r.mem.window == mem.window
  {
    hide ValidState, MemInv, Rebase, ConfigEpoch, TargetEpoch, Push, AuthorizeTransition;
    GcmIsOn(env, mem, epoch);
    WindowStaysValid(env, mem, d.next, nonce);
  }

  lemma AcceptedIsNew(history: seq<Nonce>, nonce: Nonce)
    requires EachNew(history) && nonce !in Last(history)
    ensures EachNew(history + [nonce]) && Push(Last(history), nonce) == Last(history + [nonce])
  {
    var all := history + [nonce];
    assert all[..|all| - 1] == history;
    PushOnLast(history, nonce);
  }

  /** The recent list is exactly the last 128 nonces that the process accepted in its epoch, in order, starting with
      none at a process start; every one of them was new when it came. */
  lemma {:induction false} RecentIsLast(env: Env, mem: Memory, disk: Disk, inputs: seq<Input>, epoch: Epoch,
                                        history: seq<Nonce>)
    requires MemInv(env, mem) && epoch.gcm && StaysInEpoch(env, mem, disk, inputs, epoch)
    requires EachNew(history) && mem.window.recent == Last(history)
    ensures var all := history + AcceptedNonces(env, mem, disk, inputs);
      EachNew(all) && MemoryAfter(env, mem, disk, inputs).window.recent == Last(all)
    decreases |inputs|
  {
    hide InformStep, MemInv, EachNew, Push, Last, StateInEpoch, Ready;
    if inputs == [] {
      assert history + [] == history;
    } else {
      var input := inputs[0];
      var r := InformStep(env, mem, disk, input);
      InformKeepsInv(env, mem, disk, input);
      StepWindow(env, mem, disk, input, epoch);
      var rest := AcceptedNonces(env, r.mem, r.disk, inputs[1..]);
      if r.reply.Accepted? {
        var nonce := input.exchange.nonce;
        AcceptedIsNew(history, nonce);
        RecentIsLast(env, r.mem, r.disk, inputs[1..], epoch, history + [nonce]);
        assert history + ([nonce] + rest) == history + [nonce] + rest;
      } else {
        RecentIsLast(env, r.mem, r.disk, inputs[1..], epoch, history);
        assert [] + rest == rest;
      }
    }
  }
}
