/** Replay protection by the receipts: the nonces that a receipt file remembers, over restarts. */
module ReceiptRuns {
  import opened Basics
  import opened Hex
  import opened Adoption
  import opened Classify
  import opened Identities
  import opened Receipts
  import opened ReplayWindow
  import opened GatewaySpec
  import opened GatewayInvariant
  import opened RestartRuns

  /** The nonce is in the receipt, with that many newer ones. */
  ghost predicate TextAt(r: Receipt, nonce: Nonce, age: int) {
    0 <= age < |r.nonces| && r.nonces[|r.nonces| - 1 - age] == Encode(nonce)
  }

  /** The nonce is in the receipt, with at most c newer ones. */
  ghost predicate Remembers(r: Receipt, nonce: Nonce, c: int) {
    exists age :: age <= c && TextAt(r, nonce, age)
  }

  ghost function FileOf(disk: Disk, firmware: bool): File {
    if firmware then disk.firmware else disk.receipt
  }

  ghost function EpochFor(env: Env, c: Config, s: State, firmware: bool): string {
    if firmware then TargetEpoch(env, c, s) else ConfigEpoch(env, c, s)
  }

  /** The file is one that the next start of this epoch loads, and it remembers the nonce. */
  ghost predicate FileRemembers(file: File, epoch: string, firmware: bool, nonce: Nonce, c: int) {
    && file.Present? && ValidMarker(firmware, file.receipt) && file.receipt.epoch == epoch
    && Remembers(file.receipt, nonce, c)
  }

  /** Memory and disk belong to one adoption that is eligible for receipts, and both remember the nonce. */
  ghost predicate Kept(env: Env, sys: System, config: Config, s: State, firmware: bool, nonce: Nonce, c: int) {
    && config.mode == Persistent && ReceiptsEligible(env, config, s.stored.adoption, true)
    && ValidState(env.parse, s) && s.stored.adoption.Valid(env.parse) && sys.disk.state == Some(s)
    && FileRemembers(FileOf(sys.disk, firmware), EpochFor(env, config, s, firmware), firmware, nonce, c)
    && (firmware ==> !Damaged(sys.disk.receipt))
    && (sys.proc.Up? ==>
          (&& MemInv(env, sys.proc.mem) && sys.proc.mem.config == config && sys.proc.mem.persistent == s
           && Remembers(SlotOf(sys.proc.mem, firmware).receipt, nonce, c)))
  }

  /** Every start has this configuration and can read the receipt files; it may fail for any other reason. */
  predicate SameConfig(events: seq<Event>, config: Config) {
    forall i :: 0 <= i < |events| ==> Starts(events[i], config)
  }

  predicate Starts(e: Event, config: Config) {
    e.Start? ==> e.start.config == config && e.start.receiptReadable && e.start.firmwareReadable
  }

  /** Number of receipts of a kind that reached their file. */
  function Commits(writes: seq<Write>, firmware: bool): nat {
    if writes == [] then 0
    else Commits(writes[1..], firmware) + if IsKind(writes[0], firmware) && writes[0].result != Failed then 1 else 0
  }

  lemma {:induction false} CommitsSplit(a: seq<Write>, b: seq<Write>, firmware: bool)
    ensures Commits(a + b, firmware) == Commits(a, firmware) + Commits(b, firmware)
  {
    if a == [] {
      assert a + b == b;
    } else {
      CommitsSplit(a[1..], b, firmware);
      assert (a + b)[1..] == a[1..] + b;
    }
  }

  lemma {:induction false} NoCommits(writes: seq<Write>, firmware: bool)
    requires NoReceiptWrite(writes)
    ensures Commits(writes, firmware) == 0
  {
    if writes != [] {
      NoCommits(writes[1..], firmware);
    }
  }

  lemma NewReceiptRemembers(epoch: string, marker: string, previous: Receipt, other: Nonce, nonce: Nonce, c: int)
    requires previous.epoch == epoch && |previous.nonces| <= MAX_NONCES && Remembers(previous, nonce, c)
    requires c + 1 < MAX_NONCES
    ensures Remembers(NewReceipt(epoch, marker, previous, other), nonce, c + 1)
  {
    hide Encode;
    var age :| age <= c && TextAt(previous, nonce, age);
    assert TextAt(NewReceipt(epoch, marker, previous, other), nonce, age + 1);
  }

  lemma RemembersLonger(r: Receipt, nonce: Nonce, c: int, d: int)
    requires Remembers(r, nonce, c) && c <= d
    ensures Remembers(r, nonce, d)
  {
    hide TextAt;
    var age :| age <= c && TextAt(r, nonce, age);
  }

  /** Accepting a marker ages the nonce by one where the new receipt lands. */
  lemma MarkerRemembers(slot: Slot, file: File, marker: string, other: Nonce, now: int, otherBlocked: bool,
                        firmware: bool, save: SaveResult, nonce: Nonce, c: int)
    requires SlotInv(slot, slot.epoch, firmware) && Remembers(slot.receipt, nonce, c)
    requires FileRemembers(file, slot.epoch, firmware, nonce, c)
    requires c + Commits(MarkerWrite(slot, marker, other, now, true, otherBlocked, firmware, save), firmware) < MAX_NONCES
    ensures var r := AcceptMarker(slot, file, marker, other, now, true, otherBlocked, firmware, save);
      var d := c + Commits(MarkerWrite(slot, marker, other, now, true, otherBlocked, firmware, save), firmware);
      Remembers(r.slot.receipt, nonce, d) && FileRemembers(r.file, slot.epoch, firmware, nonce, d)
  {
    hide Remembers, ValidVersion;
    var writes := MarkerWrite(slot, marker, other, now, true, otherBlocked, firmware, save);
    var d := c + Commits(writes, firmware);
    RemembersLonger(slot.receipt, nonce, c, d);
    RemembersLonger(file.receipt, nonce, c, d);
    HeldIsBounded(slot, firmware, nonce, c);
    if writes != [] {
      assert writes[1..] == [];
      if writes[0].result != Failed {
        NewReceiptRemembers(slot.epoch, marker, slot.receipt, other, nonce, c);
      }
    }
  }

  lemma HeldIsBounded(slot: Slot, firmware: bool, nonce: Nonce, c: int)
    requires SlotInv(slot, slot.epoch, firmware) && Remembers(slot.receipt, nonce, c)
    ensures slot.receipt.epoch == slot.epoch && |slot.receipt.nonces| <= MAX_NONCES && slot.receipt.Contains(nonce)
  {
    hide Encode, ValidVersion;
    var age :| age <= c && TextAt(slot.receipt, nonce, age);
  }

  lemma OtherCommits(slot: Slot, marker: string, other: Nonce, now: int, persist: bool, otherBlocked: bool,
                     firmware: bool, save: SaveResult)
    ensures Commits(MarkerWrite(slot, marker, other, now, persist, otherBlocked, firmware, save), !firmware) == 0
  {
    var writes := MarkerWrite(slot, marker, other, now, persist, otherBlocked, firmware, save);
    if writes != [] {
      assert writes[1..] == [];
    }
  }

  /** Committing a configuration receipt never damages its file. */
  lemma MarkerFileIsSound(slot: Slot, file: File, marker: string, other: Nonce, now: int, save: SaveResult)
    requires !Damaged(file)
    ensures !Damaged(AcceptMarker(slot, file, marker, other, now, true, false, false, save).file)
  {
    hide NewReceipt, ValidVersion;
  }

  // ---- One event -----------------------------------------------------------------------------------

  lemma KeptIsEligible(env: Env, sys: System, config: Config, s: State, firmware: bool, nonce: Nonce, c: int)
    requires Kept(env, sys, config, s, firmware, nonce, c) && sys.proc.Up?
    ensures var mem := sys.proc.mem; var slot := SlotOf(mem, firmware);
      && MemInv(env, mem) && Eligible(env, mem) && mem.config.mode == Persistent && mem.persistent.stored.adoption.useGCM
      && SlotInv(slot, slot.epoch, firmware) && slot.epoch == EpochFor(env, config, s, firmware)
      && slot.receipt.Contains(nonce)
  {
    hide ValidState, WindowInv, FileRemembers, ConfigEpoch, TargetEpoch, Remembers;
    HeldIsBounded(SlotOf(sys.proc.mem, firmware), firmware, nonce, c);
  }

  lemma InformKeeps(env: Env, mem: Memory, disk: Disk, input: Input, config: Config, s: State, firmware: bool,
                    nonce: Nonce, c: int)
    requires Kept(env, System(Up(mem), disk), config, s, firmware, nonce, c)
    requires c + Commits(InformStep(env, mem, disk, input).writes, firmware) < MAX_NONCES
    ensures var r := InformStep(env, mem, disk, input);
      Kept(env, System(Up(r.mem), r.disk), config, s, firmware, nonce, c + Commits(r.writes, firmware))
  {
    hide InformStep, MemInv, AcceptMarker, MarkerWrite, Commits, Remembers, FileRemembers, ReceiptsEligible, ValidState;
    hide ConfigEpoch, TargetEpoch, Damaged, SlotInv, Adoption.Valid;
    var r := InformStep(env, mem, disk, input);
    KeptIsEligible(env, System(Up(mem), disk), config, s, firmware, nonce, c);
    InformKeepsInv(env, mem, disk, input);
    EligibleIsFrozen(env, mem, disk, input);
    EligibleStep(env, mem, disk, input);
    if marker, other :| ConfigEffect(mem, disk, input, r, marker, other) {
      if firmware {
        OtherCommits(mem.receipts, marker, other, input.now, true, false, false, input.save);
        MarkerFileIsSound(mem.receipts, disk.receipt, marker, other, input.now, input.save);
      } else {
        MarkerRemembers(mem.receipts, disk.receipt, marker, other, input.now, false, false, input.save, nonce, c);
      }
    } else if marker, other :| TargetEffect(mem, disk, input, r, marker, other) {
      if firmware {
        MarkerRemembers(mem.firmware, disk.firmware, marker, other, input.now, mem.receipts.blocked, true, input.save, nonce, c);
      } else {
        OtherCommits(mem.firmware, marker, other, input.now, true, mem.receipts.blocked, true, input.save);
      }
    } else {
      NoCommits(r.writes, firmware);
    }
  }

  lemma StartKeeps(env: Env, sys: System, input: StartInput, config: Config, s: State, firmware: bool, nonce: Nonce,
                   c: int)
    requires Kept(env, sys, config, s, firmware, nonce, c) && Starts(Start(input), config)
    ensures var r := StartStep(env, sys.disk, input);
      Kept(env, System(r.proc, r.disk), config, s, firmware, nonce, c) && r.writes == []
  {
    hide MemInv, Remembers, ValidState, ConfigEpoch, TargetEpoch, NewWindow, Meets, Adoption.Valid;
    StartEstablishesInv(env, sys.disk, input);
    StoredIsLoaded(env, sys.disk, input, config, s);
  }

  /** An adopted state is loaded as it is, or the start fails without touching it. */
  lemma StoredIsLoaded(env: Env, disk: Disk, input: StartInput, config: Config, s: State)
    requires disk.state == Some(s) && ReceiptsEligible(env, config, s.stored.adoption, true)
    ensures var loaded := LoadOrCreate(env.parse, input.config, input.request, disk, input.save);
      (loaded == (Some(s), disk, []) || loaded == (None, disk, []))
  {
    hide ValidState, Meets;
  }

  lemma StepKeeps(env: Env, sys: System, e: Event, config: Config, s: State, firmware: bool, nonce: Nonce, c: int)
    requires Kept(env, sys, config, s, firmware, nonce, c) && Starts(e, config)
    requires c + Commits(Step(env, sys, e).1, firmware) < MAX_NONCES
    ensures Kept(env, Step(env, sys, e).0, config, s, firmware, nonce, c + Commits(Step(env, sys, e).1, firmware))
  {
    hide InformStep, StartStep, MemInv, FileRemembers, ReceiptsEligible, ValidState, ConfigEpoch, TargetEpoch;
    match e
    case Stop =>
    case Start(input) => StartKeeps(env, sys, input, config, s, firmware, nonce, c);
    case Inform(input) =>
      if sys.proc.Up? {
        InformKeeps(env, sys.proc.mem, sys.disk, input, config, s, firmware, nonce, c);
      }
  }

  // ---- Runs ----------------------------------------------------------------------------------------

  lemma {:induction false} RunKeepsNonce(env: Env, sys: System, events: seq<Event>, config: Config, s: State,
                                         firmware: bool, nonce: Nonce, c: int)
    requires Kept(env, sys, config, s, firmware, nonce, c) && SameConfig(events, config)
    requires c + Commits(Writes(env, sys, events), firmware) < MAX_NONCES
    ensures Kept(env, Run(env, sys, events), config, s, firmware, nonce, c + Commits(Writes(env, sys, events), firmware))
    decreases |events|
  {
    hide Step, Kept, Starts;
    if events != [] {
      var (next, writes) := Step(env, sys, events[0]);
      CommitsSplit(writes, Writes(env, next, events[1..]), firmware);
      StepKeeps(env, sys, events[0], config, s, firmware, nonce, c);
      RunKeepsNonce(env, next, events[1..], config, s, firmware, nonce, c + Commits(writes, firmware));
    }
  }

  /** The answer was committed as a receipt of the kind. */
  ghost predicate CommitsReceipt(env: Env, mem: Memory, disk: Disk, input: Input, firmware: bool) {
    var writes := InformStep(env, mem, disk, input).writes;
    input.exchange.Decoded? && writes != [] && IsKind(writes[0], firmware) && writes[0].result == Saved
  }

  lemma CommittedIsKept(env: Env, mem: Memory, disk: Disk, input: Input, firmware: bool)
    requires MemInv(env, mem) && mem.config.mode == Persistent && disk.state == Some(mem.persistent)
    requires CommitsReceipt(env, mem, disk, input, firmware) && (firmware ==> !Damaged(disk.receipt))
    ensures var r := InformStep(env, mem, disk, input);
      Kept(env, System(Up(r.mem), r.disk), mem.config, mem.persistent, firmware, input.exchange.nonce, 0)
  {
    hide InformStep, MemInv, AcceptMarker, MarkerWrite, ReceiptsEligible, ValidState, ConfigEpoch, TargetEpoch;
    hide SlotInv, Damaged, Remembers, FileRemembers, Adoption.Valid;
    var r, nonce := InformStep(env, mem, disk, input), input.exchange.nonce;
    InformKeepsInv(env, mem, disk, input);
    WriterIsEligible(env, mem, disk, input, firmware);
    EligibleIsFrozen(env, mem, disk, input);
    EligibleStep(env, mem, disk, input);
    SoundMemory(env, mem);
    if marker :| ConfigEffect(mem, disk, input, r, marker, nonce) {
      MarkerCommits(mem.receipts, disk.receipt, marker, nonce, input.now, false, false, input.save);
    } else {
      var marker :| TargetEffect(mem, disk, input, r, marker, nonce);
      MarkerCommits(mem.firmware, disk.firmware, marker, nonce, input.now, mem.receipts.blocked, true, input.save);
    }
  }

  lemma WriterIsEligible(env: Env, mem: Memory, disk: Disk, input: Input, firmware: bool)
    requires MemInv(env, mem) && CommitsReceipt(env, mem, disk, input, firmware)
    ensures Eligible(env, mem)
  {
    hide InformStep, MemInv, ReceiptsEligible;
    if !Eligible(env, mem) {
      IneligibleStep(env, mem, disk, input);
    }
  }

  lemma SoundMemory(env: Env, mem: Memory)
    requires MemInv(env, mem)
    ensures ValidState(env.parse, mem.persistent) && mem.persistent.stored.adoption.Valid(env.parse)
    ensures mem.receipts.epoch == ConfigEpoch(env, mem.config, mem.persistent)
    ensures mem.firmware.epoch == TargetEpoch(env, mem.config, mem.persistent)
  {
    hide ValidState, ConfigEpoch, TargetEpoch, WindowInv, Adoption.Valid;
  }

  /** A committed receipt holds the nonce that carried it as its youngest, in memory and on file. */
  lemma MarkerCommits(slot: Slot, file: File, marker: string, nonce: Nonce, now: int, otherBlocked: bool,
                      firmware: bool,
                      save: SaveResult)
    requires var writes := MarkerWrite(slot, marker, nonce, now, true, otherBlocked, firmware, save);
      writes != [] && writes[0].result == Saved
    ensures var r := AcceptMarker(slot, file, marker, nonce, now, true, otherBlocked, firmware, save);
      Remembers(r.slot.receipt, nonce, 0) && FileRemembers(r.file, slot.epoch, firmware, nonce, 0)
    ensures var writes := MarkerWrite(slot, marker, nonce, now, true, otherBlocked, firmware, save);
      IsKind(writes[0], firmware)
  {
    hide ValidVersion, ValidMarker;
    var next := NewReceipt(slot.epoch, marker, slot.receipt, nonce);
    assert TextAt(next, nonce, 0);
  }

  /** Replay protection by receipts, in persistent mode. After a committed configuration receipt, over any interleaving of
      answers, write failures of either kind, stops and starts with the same configuration and readable receipt files: as
      long as fewer than 128 later receipts of the kind have reached their file, a response with the same nonce -
      whatever it carries - changes nothing, and if the gateway is ready to inform at all it is refused as a replay. The
      same holds for a firmware receipt if the configuration receipt file was not damaged when it was committed. */
  lemma ReceiptReplayIsRejected(env: Env, mem: Memory, disk: Disk, first: Input, events: seq<Event>, again: Input,
                                firmware: bool)
    requires MemInv(env, mem) && mem.config.mode == Persistent && disk.state == Some(mem.persistent)
    requires CommitsReceipt(env, mem, disk, first, firmware) && (firmware ==> !Damaged(disk.receipt))
    requires var r := InformStep(env, mem, disk, first);
      var sys := System(Up(r.mem), r.disk);
      && SameConfig(events, mem.config) && Commits(Writes(env, sys, events), firmware) < MAX_NONCES
      && Run(env, sys, events).proc.Up?
    requires again.exchange.Decoded? && again.exchange.nonce == first.exchange.nonce
    ensures var r := InformStep(env, mem, disk, first);
      var end := Run(env, System(Up(r.mem), r.disk), events);
      InformStep(env, end.proc.mem, end.disk, again) ==
        StepResult(end.proc.mem, end.disk, Rejected(if Ready(end.proc.mem, again) then Replay else NotReady), [])
  {
    hide InformStep, Run, Writes, Commits, MemInv, Kept, Ready, Damaged, SameConfig;
    var r, nonce := InformStep(env, mem, disk, first), first.exchange.nonce;
    var sys := System(Up(r.mem), r.disk);
    CommittedIsKept(env, mem, disk, first, firmware);
    RunKeepsNonce(env, sys, events, mem.config, mem.persistent, firmware, nonce, 0);
    var c := Commits(Writes(env, sys, events), firmware);
    KeptIsReplay(env, Run(env, sys, events), again, mem.config, mem.persistent, firmware, nonce, c);
  }

  lemma KeptIsReplay(env: Env, sys: System, input: Input, config: Config, s: State, firmware: bool, nonce: Nonce,
                     c: int)
    requires Kept(env, sys, config, s, firmware, nonce, c) && sys.proc.Up?
    requires input.exchange.Decoded? && input.exchange.nonce == nonce
    ensures InformStep(env, sys.proc.mem, sys.disk, input) ==
            StepResult(sys.proc.mem, sys.disk, Rejected(if Ready(sys.proc.mem, input) then Replay else NotReady), [])
  {
    hide InformStep, Ready, MemInv, ReceiptsEligible, Kept, SlotInv, ConfigEpoch, TargetEpoch;
    KeptIsEligible(env, sys, config, s, firmware, nonce, c);
    InformIsAnswer(env, sys.proc.mem, sys.disk, input);
  }

  /** The premise about the stored state is met in every process that started in persistent mode, at every point at which
      it can commit a receipt. */
  lemma WriterOwnsState(env: Env, disk: Disk, start: StartInput, before: seq<Event>, input: Input, firmware: bool)
    requires start.config.mode == Persistent && StartStep(env, disk, start).proc.Up? && OneProcess(before)
    ensures var started := StartStep(env, disk, start);
      var sys := Run(env, System(started.proc, started.disk), before);
      && sys.proc.Up?
      && (CommitsReceipt(env, sys.proc.mem, sys.disk, input, firmware) ==>
            (&& MemInv(env, sys.proc.mem) && sys.proc.mem.config == start.config
             && sys.disk.state == Some(sys.proc.mem.persistent)))
  {
    hide StartStep, InformStep, Run, Writes, Misreported, FileMatches, MemInv, CommitsReceipt;
    var started := StartStep(env, disk, start);
    var sys := Run(env, System(started.proc, started.disk), before);
    StartIsDurable(env, disk, start);
    RunStaysDurable(env, started.proc.mem, started.disk, before, [], []);
    if CommitsReceipt(env, sys.proc.mem, sys.disk, input, firmware) {
      WriterIsEligible(env, sys.proc.mem, sys.disk, input, firmware);
    }
  }

  /** The restart after a committed firmware receipt remembers its nonce if and only if the configuration receipt file is not
      damaged. If it is, the same answer is still refused, but because receipts are blocked. */
  lemma RestartRemembersTarget(env: Env, mem: Memory, disk: Disk, first: Input, start: StartInput, again: Input)
    requires MemInv(env, mem) && mem.config.mode == Persistent && disk.state == Some(mem.persistent)
    requires CommitsReceipt(env, mem, disk, first, true)
    requires var r := InformStep(env, mem, disk, first); SameAgain(start, r.mem)
    ensures var r := InformStep(env, mem, disk, first);
      var next := StartStep(env, r.disk, start).proc;
      && next.Up? && (Known(next.mem, first.exchange.nonce) <==> !Damaged(disk.receipt))
      && (Damaged(disk.receipt) && Ready(next.mem, again) && again.exchange == first.exchange ==>
            InformStep(env, next.mem, r.disk, again).reply == Rejected(StorageUnavailable))
  {
    hide InformStep, StartStep, MemInv, Ready, Eligible, Known, Kept, Damaged, SameAgain;
    var r, nonce := InformStep(env, mem, disk, first), first.exchange.nonce;
    InformKeepsInv(env, mem, disk, first);
    WriterIsEligible(env, mem, disk, first, true);
    EligibleIsFrozen(env, mem, disk, first);
    EligibleSame(env, mem, r.mem);
    if Damaged(disk.receipt) {
      TargetWasNew(env, mem, disk, first);
      DamagedForgets(env, mem, r.mem, r.disk, start, first.exchange, again);
    } else {
      CommittedIsKept(env, mem, disk, first, true);
      RestartKnows(env, r.mem, r.disk, start, mem.config, mem.persistent, nonce);
    }
  }

  lemma EligibleSame(env: Env, mem: Memory, after: Memory)
    requires after.config == mem.config && after.persistent == mem.persistent
    ensures Eligible(env, after) == Eligible(env, mem)
  {
  }

  lemma RestartKnows(env: Env, mem: Memory, disk: Disk, start: StartInput, config: Config, s: State, nonce: Nonce)
    requires Kept(env, System(Up(mem), disk), config, s, true, nonce, 0) && SameAgain(start, mem)
    ensures var next := StartStep(env, disk, start).proc; next.Up? && Known(next.mem, nonce)
  {
    hide StartStep, MemInv, ReceiptsEligible, ValidState, FileRemembers, Remembers, Damaged, NewWindow, Adoption.Valid;
    KeptIsEligible(env, System(Up(mem), disk), config, s, true, nonce, 0);
    StartAgain(env, mem, disk, start);
    StartKeeps(env, System(Up(mem), disk), start, config, s, true, nonce, 0);
    var r := StartStep(env, disk, start);
    KeptIsEligible(env, System(r.proc, r.disk), config, s, true, nonce, 0);
  }

  /** A start that finds the configuration receipts damaged does not know a nonce that only the firmware receipt holds, and
      refuses its answer because receipts are blocked. */
  lemma DamagedForgets(env: Env, before: Memory, mem: Memory, disk: Disk, start: StartInput, exchange: Exchange,
                       again: Input)
    requires MemInv(env, before) && MemInv(env, mem) && Eligible(env, mem)
    requires mem.config == before.config && mem.persistent == before.persistent
    requires mem.config.mode == Persistent && mem.config.firmwareSync && disk.state == Some(mem.persistent)
    requires Damaged(disk.receipt) && SameAgain(start, mem)
    requires exchange.Decoded? && !Known(before, exchange.nonce) && ClassifyTarget(exchange.body).Some?
    ensures var next := StartStep(env, disk, start).proc;
      && next.Up? && !Known(next.mem, exchange.nonce)
      && (Ready(next.mem, again) && again.exchange == exchange ==>
            InformStep(env, next.mem, disk, again).reply == Rejected(StorageUnavailable))
  {
    hide InformStep, StartStep, MemInv, Ready, Damaged, SameAgain, ClassifyTarget, ReceiptsEligible;
    DamagedBlocks(env, mem, disk, start);
    StartEstablishesInv(env, disk, start);
    SameProtected(env, before, mem);
    EligibleIsGcm(env, mem);
    var next := StartStep(env, disk, start).proc.mem;
    if Ready(next, again) && again.exchange == exchange {
      InformIsAnswer(env, next, disk, again);
    }
  }

  lemma SameProtected(env: Env, a: Memory, b: Memory)
    requires MemInv(env, a) && MemInv(env, b) && a.persistent == b.persistent
    ensures a.window.protected == b.window.protected
  {
    hide ValidState, ConfigEpoch, TargetEpoch, SlotInv, Adoption.Valid;
  }

  lemma EligibleIsGcm(env: Env, mem: Memory)
    requires Eligible(env, mem)
    ensures mem.persistent.stored.adoption.useGCM
    ensures ReceiptsEligible(env, mem.config, mem.persistent.stored.adoption, true)
  {
  }

  /** An answer that was committed as a firmware receipt carried a nonce that was not known, and a target. */
  lemma TargetWasNew(env: Env, mem: Memory, disk: Disk, input: Input)
    requires MemInv(env, mem) && CommitsReceipt(env, mem, disk, input, true) && Eligible(env, mem)
    ensures !Known(mem, input.exchange.nonce) && mem.config.firmwareSync && ClassifyTarget(input.exchange.body).Some?
    ensures InformStep(env, mem, disk, input).disk.receipt == disk.receipt
  {
    hide InformStep, MemInv, Ready, AcceptMarker, Decide, CommitStep, ClassifyTarget, ClassifyReceipt, Known;
    InformIsAnswer(env, mem, disk, input);
    if Decide(env, mem, input.exchange.body).Ok? {
      DecideShape(env, mem, input.exchange.body);
      EligibleCommit(env, mem, disk, input, input.exchange.nonce, Decide(env, mem, input.exchange.body).value);
    }
  }

  lemma DamagedBlocks(env: Env, mem: Memory, disk: Disk, start: StartInput)
    requires MemInv(env, mem) && Eligible(env, mem) && disk.state == Some(mem.persistent) && SameAgain(start, mem)
    requires mem.config.mode == Persistent && Damaged(disk.receipt)
    ensures var next := StartStep(env, disk, start).proc;
      && next.Up? && next.mem.config == mem.config && next.mem.persistent == mem.persistent
      && next.mem.receipts.blocked && next.mem.receipts.receipt == NO_RECEIPT && next.mem.firmware.receipt == NO_RECEIPT
      && next.mem.window.recent == [] && next.mem.window.protected == mem.window.protected
  {
    hide ValidState, ConfigEpoch, TargetEpoch, StartStep;
    HoldingIsEligible(env, mem);
    StartAgain(env, mem, disk, start);
    ValidKeyHasEpoch(mem.persistent.stored.adoption);
  }
}
