/** Adoption over plain HTTP is a one-way street of at most three accepted changes that ends in a frozen state. */
module HttpRuns {
  import opened Basics
  import opened Text
  import opened Hex
  import opened Adoption
  import opened Classify
  import opened Identities
  import opened ReplayWindow
  import opened GatewaySpec
  import opened GatewayInvariant
  import opened ReplayRuns

  /** Pending, adopted on the public key, adopted on a controller key, adopted with GCM. */
  function Rank(a: Adoption): nat {
    if !a.adopted then 3 else if a.useGCM then 0 else if a.DefaultKey() then 2 else 1
  }

  /** A state reached over HTTP: its origin is plain HTTP, a pending one is pristine, and no nonce is protected. */
  ghost predicate HttpState(parse: UrlParser, s: State) {
    var a := s.stored.adoption;
    && ValidState(parse, s) && a.Valid(parse) && HasScheme(parse, a.informURL, "http")
    && (!a.adopted ==> a == Pending(a.informURL))
    && s.stored.nonces == []
  }

  /** The disk holds the state of the process, or a later one whose write was reported as failed. */
  ghost predicate Ahead(disk: State, mem: State) {
    disk == mem || Rank(disk.stored.adoption) < Rank(mem.stored.adoption)
  }

  ghost predicate HttpSystem(env: Env, sys: System) {
    && (sys.disk.state.Some? ==> HttpState(env.parse, sys.disk.state.value))
    && (sys.proc.Up? ==>
          (&& MemInv(env, sys.proc.mem) && HttpState(env.parse, sys.proc.mem.persistent)
           && sys.disk.state.Some? && Ahead(sys.disk.state.value, sys.proc.mem.persistent)))
  }

  /** Operators configure plain HTTP origins only; nothing else about a start is restricted. */
  ghost predicate HttpStarts(env: Env, events: seq<Event>) {
    forall i :: 0 <= i < |events| && events[i].Start? ==> HasScheme(env.parse, events[i].start.config.informURL, "http")
  }

  /** How many changes the stored state leaves open. */
  ghost function Open(disk: Disk): nat {
    if disk.state.Some? then Rank(disk.state.value.stored.adoption) else 3
  }

  /** How many changes are still possible. */
  ghost function Potential(sys: System): nat {
    match sys.proc
    case Up(mem) => Rank(mem.persistent.stored.adoption)
    case Down => Open(sys.disk)
  }

  /** An accepted answer that changed the adoption state. */
  ghost predicate Changes(env: Env, sys: System, e: Event) {
    && e.Inform? && sys.proc.Up?
    && InformStep(env, sys.proc.mem, sys.disk, e.input).mem.persistent.stored.adoption != sys.proc.mem.persistent.stored.adoption
  }

  ghost function ChangeCount(env: Env, sys: System, events: seq<Event>): nat
    decreases |events|
  {
    if events == [] then 0
    else (if Changes(env, sys, events[0]) then 1 else 0) + ChangeCount(env, Step(env, sys, events[0]).0, events[1..])
  }

  /** The writes of the answers of a run; those of the starts are left out. */
  ghost function AnswerWrites(env: Env, sys: System, events: seq<Event>): seq<Write>
    decreases |events|
  {
    if events == [] then []
    else
      (if events[0].Inform? then Step(env, sys, events[0]).1 else []) +
        AnswerWrites(env, Step(env, sys, events[0]).0, events[1..])
  }

  /** Number of adoption changes whose write failed after the new state was in place. */
  function InPlace(writes: seq<Write>): nat {
    if writes == [] then 0
    else
      var w := writes[|writes| - 1];
      InPlace(writes[..|writes| - 1]) + if w.StateWrite? && w.result == FailedInPlace then 1 else 0
  }

  lemma {:induction false} InPlaceSplits(a: seq<Write>, b: seq<Write>)
    ensures InPlace(a + b) == InPlace(a) + InPlace(b)
  {
    if b == [] {
      assert a + b == a;
    } else {
      InPlaceSplits(a, b[..|b| - 1]);
      assert (a + b)[..|a + b| - 1] == a + b[..|b| - 1];
    }
  }

  lemma AloneOrNone(writes: seq<Write>)
    requires |writes| <= 1
    ensures Landed(writes) == if writes != [] && Lands(writes[0]) then 1 else 0
    ensures InPlace(writes) == if writes != [] && writes[0].StateWrite? && writes[0].result == FailedInPlace then 1 else 0
  {
    if writes != [] {
      assert writes[..|writes| - 1] == [];
    }
  }

  /** What an answer puts on disk it also puts in memory, unless the write failed in place. */
  lemma AnswerLands(env: Env, mem: Memory, disk: Disk, input: Input)
    requires MemInv(env, mem)
    ensures var r := InformStep(env, mem, disk, input);
      Landed(r.writes) == (if r.mem.persistent.stored.adoption != mem.persistent.stored.adoption then 1 else 0) + InPlace(r.writes)
  {
    hide InformStep, MemInv, Ready, AcceptMarker, MarkerWrite, CommitStep, Decide, Known, ClassifyTarget;
    hide ClassifyReceipt, ReceiptsEligible;
    InformIsAnswer(env, mem, disk, input);
    InformKeepsInv(env, mem, disk, input);
    AloneOrNone(InformStep(env, mem, disk, input).writes);
    if Ready(mem, input) && input.exchange.Decoded? && Decide(env, mem, input.exchange.body).Ok? {
      var d := Decide(env, mem, input.exchange.body).value;
      DecideShape(env, mem, input.exchange.body);
      CommitLands(env, mem, disk, input, input.exchange.nonce, d);
    }
  }

  lemma CommitLands(env: Env, mem: Memory, disk: Disk, input: Input, nonce: Nonce, d: Decision)
    requires MemInv(env, mem) && d.next.Valid(env.parse)
    ensures var r := CommitStep(env, mem, disk, input, nonce, d.next, d.outcome, d.volatile);
      Landed(r.writes) == (if r.mem.persistent.stored.adoption != mem.persistent.stored.adoption then 1 else 0) + InPlace(r.writes)
  {
    hide ValidState, MemInv, Rebase, ConfigEpoch, TargetEpoch, AuthorizeTransition, NextStored;
    StoredStaysValid(env, mem, d.next, nonce);
    var r := CommitStep(env, mem, disk, input, nonce, d.next, d.outcome, d.volatile);
    AloneOrNone(r.writes);
  }

  /** Over any run: the answers that land are the accepted changes and the failures in place. */
  lemma {:induction false} LandedAnswers(env: Env, sys: System, events: seq<Event>)
    requires SysInv(env, sys)
    ensures var writes := AnswerWrites(env, sys, events); Landed(writes) == ChangeCount(env, sys, events) + InPlace(writes)
    decreases |events|
  {
    hide InformStep, StartStep, MemInv, Accepts;
    if events != [] {
      var e := events[0];
      var (next, writes) := Step(env, sys, e);
      var counted, rest := if e.Inform? then writes else [], AnswerWrites(env, next, events[1..]);
      StepKeepsInv(env, sys, e);
      LandedAnswers(env, next, events[1..]);
      LandedSplits(counted, rest);
      InPlaceSplits(counted, rest);
      if e.Inform? && sys.proc.Up? {
        AnswerLands(env, sys.proc.mem, sys.disk, e.input);
      }
    }
  }

  /** Every state that an answer can ask for over HTTP is an HTTP state of strictly lower rank. */
  lemma ProposalLowersRank(env: Env, mem: Memory, nonce: Nonce, body: Body)
    requires MemInv(env, mem) && HttpState(env.parse, mem.persistent) && Decide(env, mem, body).Ok?
    requires var d, current := Decide(env, mem, body).value, mem.persistent.stored.adoption;
      d.next != current && (d.next.informURL == current.informURL || AuthorizeTransition(env.parse, current.informURL, d.next.informURL))
    ensures var d := Decide(env, mem, body).value;
      var state := mem.persistent.(stored := NextStored(mem, d.next, nonce));
      HttpState(env.parse, state) && Rank(d.next) < Rank(mem.persistent.stored.adoption)
  {
    var d, current := Decide(env, mem, body).value, mem.persistent.stored.adoption;
    DecideShape(env, mem, body);
    StoredStaysValid(env, mem, d.next, nonce);
    ValidKeyHasEpoch(current);
    AuthorizeIsEquivalence(env.parse, current.informURL, d.next.informURL, d.next.informURL);
  }

  /** An exchange leaves both states alone or puts a proposed state of an authorized origin on disk. */
  lemma InformOverHttp(env: Env, mem: Memory, disk: Disk, input: Input)
    requires HttpSystem(env, System(Up(mem), disk))
    ensures var r := InformStep(env, mem, disk, input);
      && HttpSystem(env, System(Up(r.mem), r.disk))
      && (r.mem.persistent.stored.adoption != mem.persistent.stored.adoption ==>
            Rank(r.mem.persistent.stored.adoption) < Rank(mem.persistent.stored.adoption))
      && (r.mem.persistent.stored.adoption == mem.persistent.stored.adoption ==> r.mem.persistent == mem.persistent)
      && (Rank(mem.persistent.stored.adoption) == 0 ==> r.mem.persistent == mem.persistent && r.disk.state == disk.state)
  {
    hide InformStep, MemInv, WritesValid, OnlyBlocked, Landed, Decide;
    var r := InformStep(env, mem, disk, input);
    InformKeepsInv(env, mem, disk, input);
    InformStates(env, mem, disk, input);
    if r.mem.persistent != mem.persistent || r.disk.state != disk.state {
      OriginWasAuthorized(env, mem, disk, input);
      ProposalLowersRank(env, mem, input.exchange.nonce, input.exchange.body);
    }
  }

  lemma OriginWasAuthorized(env: Env, mem: Memory, disk: Disk, input: Input)
    requires MemInv(env, mem) && input.exchange.Decoded? && Decide(env, mem, input.exchange.body).Ok?
    requires var r := InformStep(env, mem, disk, input); r.mem.persistent != mem.persistent || r.disk.state != disk.state
    ensures var next, current := Decide(env, mem, input.exchange.body).value.next, mem.persistent.stored.adoption;
      next.informURL == current.informURL || AuthorizeTransition(env.parse, current.informURL, next.informURL)
  {
    hide InformStep, MemInv, Ready, AcceptMarker, MarkerWrite, Decide, Known, ClassifyTarget, ClassifyReceipt;
    hide ReceiptsEligible, Rebase;
    InformIsAnswer(env, mem, disk, input);
  }

  /** A start loads the stored state, or a pending one on the configured origin. */
  lemma LoadedOverHttp(parse: UrlParser, c: Config, request: Request, disk: Disk)
    requires disk.state.Some? ==> HttpState(parse, disk.state.value)
    requires HasScheme(parse, c.informURL, "http") || (disk.state.Some? && disk.state.value.stored.adoption.adopted)
    ensures var loaded := StateToLoad(parse, c, request, disk);
      loaded.Some? ==>
        if disk.state.Some? && disk.state.value.stored.adoption.adopted then loaded == disk.state
        else loaded.value.stored == Stored(Pending(c.informURL), []) || loaded == disk.state
    ensures var loaded := StateToLoad(parse, c, request, disk);
      loaded.Some? && ValidState(parse, loaded.value) ==> HttpState(parse, loaded.value)
  {
    hide Adoption.Valid, Meets, NewIdentity, ValidKey, ValidConfigValue, ValidNonceTexts;
    if ValidInformUrl(parse, c.informURL) {
      PendingIsValid(parse, c.informURL);
    }
    if disk.state.Some? {
      StoredOverHttp(parse, disk.state.value);
    }
  }

  lemma StoredOverHttp(parse: UrlParser, s: State)
    requires HttpState(parse, s)
    ensures s.stored.nonces == [] && HasScheme(parse, s.stored.adoption.informURL, "http")
    ensures !s.stored.adoption.adopted ==> s.stored.adoption == Pending(s.stored.adoption.informURL)
  {
  }

  lemma CreatedOverHttp(parse: UrlParser, c: Config, request: Request, disk: Disk, save: SaveResult)
    requires disk.state.Some? ==> HttpState(parse, disk.state.value)
    requires HasScheme(parse, c.informURL, "http") || (disk.state.Some? && disk.state.value.stored.adoption.adopted)
    ensures var (loaded, disk', writes) := LoadOrCreate(parse, c, request, disk, save);
      && (disk'.state.Some? ==> HttpState(parse, disk'.state.value)) && Open(disk') <= Open(disk)
      && (loaded.Some? ==> disk'.state == loaded)
      && (disk.state.Some? && disk.state.value.stored.adoption.adopted ==> disk'.state == disk.state)
  {
    hide StateToLoad, ValidState, HttpState;
    LoadedOverHttp(parse, c, request, disk);
  }

  /** No start raises the potential, and an adopted state is loaded as it is. */
  lemma StartOverHttp(env: Env, sys: System, input: StartInput)
    requires HttpSystem(env, sys)
    requires HasScheme(env.parse, input.config.informURL, "http") ||
             (sys.disk.state.Some? && sys.disk.state.value.stored.adoption.adopted)
    ensures var next := Step(env, sys, Start(input)).0;
      && HttpSystem(env, next) && Potential(next) <= Potential(sys)
      && (sys.disk.state.Some? && sys.disk.state.value.stored.adoption.adopted ==>
            next.disk.state == sys.disk.state && (next.proc.Up? ==> Some(next.proc.mem.persistent) == sys.disk.state))
  {
    hide LoadOrCreate, Boot, NewWindow, HttpState, MemInv, Accepts, Rank, Adoption.Valid;
    StartEstablishesInv(env, sys.disk, input);
    CreatedOverHttp(env.parse, input.config, input.request, sys.disk, input.save);
  }

  lemma PendingIsValid(parse: UrlParser, url: string)
    requires ValidInformUrl(parse, url)
    ensures Pending(url).Valid(parse)
  {
    hide ValidInformUrl, ToLower, ValidKey;
    DefaultKeyIsValid();
  }

  /** From a gateway that was never started, over any run whose configured origins are plain HTTP: at most three
      accepted answers change the adoption state, each lowering its rank. What lands on disk is these changes and the
      answers whose write was reported as failed after it was in place. */
  lemma AtMostThreeChanges(env: Env, receipt: File, firmware: File, events: seq<Event>)
    requires HttpStarts(env, events)
    ensures var sys := System(Down, Disk(None, receipt, firmware));
      && ChangeCount(env, sys, events) <= 3 && HttpSystem(env, Run(env, sys, events))
      && Landed(AnswerWrites(env, sys, events)) <= 3 + InPlace(AnswerWrites(env, sys, events))
  {
    LandedAnswers(env, System(Down, Disk(None, receipt, firmware)), events);
    ChangesAreBounded(env, System(Down, Disk(None, receipt, firmware)), events);
  }

  lemma {:induction false} ChangesAreBounded(env: Env, sys: System, events: seq<Event>)
    requires HttpSystem(env, sys) && HttpStarts(env, events)
    ensures HttpSystem(env, Run(env, sys, events))
    ensures ChangeCount(env, sys, events) + Potential(Run(env, sys, events)) <= Potential(sys)
    decreases |events|
  {
    hide InformStep, StartStep, MemInv, HttpState;
    if events != [] {
      var e := events[0];
      match e {
        case Stop =>
        case Start(input) => StartOverHttp(env, sys, input);
        case Inform(input) =>
          if sys.proc.Up? {
            InformOverHttp(env, sys.proc.mem, sys.disk, input);
          }
      }
      ChangesAreBounded(env, Step(env, sys, e).0, events[1..]);
    }
  }

  /** Once adopted with GCM over HTTP the stored state never changes again, on disk or in any later process,
      whatever is answered, written, stopped, restarted or reconfigured. */
  lemma {:induction false} FrozenForever(env: Env, sys: System, events: seq<Event>, s: State)
    requires HttpSystem(env, sys) && sys.disk.state == Some(s) && Rank(s.stored.adoption) == 0
    requires sys.proc.Up? ==> sys.proc.mem.persistent == s
    ensures var end := Run(env, sys, events);
      && HttpSystem(env, end) && end.disk.state == Some(s) && (end.proc.Up? ==> end.proc.mem.persistent == s)
    decreases |events|
  {
    hide InformStep, StartStep, MemInv, HttpState;
    if events != [] {
      var e := events[0];
      match e {
        case Stop =>
        case Start(input) => StartOverHttp(env, sys, input);
        case Inform(input) =>
          if sys.proc.Up? {
            InformOverHttp(env, sys.proc.mem, sys.disk, input);
          }
      }
      FrozenForever(env, Step(env, sys, e).0, events[1..], s);
    }
  }
}
