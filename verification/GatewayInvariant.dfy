/** What every inform step and every start keep: the memory is valid and agrees with itself, and every value
    handed to a saver passes that saver's own checks, so that saving can fail only through I/O. */
module GatewayInvariant {
  import opened Basics
  import opened Text
  import opened Hex
  import opened Adoption
  import opened Classify
  import opened Identities
  import opened Receipts
  import opened ReplayWindow
  import opened GatewaySpec

  ghost predicate SlotInv(slot: Slot, epoch: string, firmware: bool) {
    && slot.epoch == epoch
    && (slot.receipt == NO_RECEIPT || (epoch != "" && slot.receipt.epoch == epoch && ValidMarker(firmware, slot.receipt)))
  }

  ghost predicate WindowInv(w: Window, s: Stored)
    requires ValidNonceTexts(s.nonces)
  {
    w.Valid() && EpochOf(s.adoption) == Some(w.epoch) && w.protected == DecodeNonces(s.nonces)
  }

  /** The configuration version the process reports when the volatile exception is off. */
  function Marker(mem: Memory): string {
    if mem.receipts.receipt == NO_RECEIPT then mem.persistent.stored.adoption.cfgVersion else mem.receipts.receipt.marker
  }

  ghost predicate MemInv(env: Env, mem: Memory) {
    && mem.config.Valid()
    && ValidState(env.parse, mem.persistent) && mem.persistent.stored.adoption.Valid(env.parse)
    && WindowInv(mem.window, mem.persistent.stored)
    && SlotInv(mem.receipts, ConfigEpoch(env, mem.config, mem.persistent), false)
    && SlotInv(mem.firmware, TargetEpoch(env, mem.config, mem.persistent), true)
    && ValidConfigValue(mem.reportedCfg, 128)
    && (!mem.config.volatileSync ==> mem.reportedCfg == Marker(mem))
    && mem.reportedFirmware == mem.firmware.receipt.marker
  }

  ghost predicate WriteValid(env: Env, w: Write) {
    match w
    case StateWrite(s, _) => ValidState(env.parse, s) && s.stored.adoption.Valid(env.parse)
    case ConfigWrite(r, _, _) => r.Valid()
    case TargetWrite(r, _, _) => ValidMarker(true, r)
  }

  ghost predicate WritesValid(env: Env, writes: seq<Write>) {
    forall i :: 0 <= i < |writes| ==> WriteValid(env, writes[i])
  }

  /** What the saver of a write checks itself. */
  ghost predicate Accepts(env: Env, w: Write) {
    if w.StateWrite? then ValidState(env.parse, w.state) else WriteValid(env, w)
  }

  // ---- Markers ----------------------------------------------------------------------------------

  lemma VersionPrintable(v: string)
    requires ValidVersion(v)
    ensures 0 < |v| <= 128 && forall i :: 0 <= i < |v| ==> ' ' <= v[i] <= '~'
  {
    var parts := Split(v, '.');
    SplitChars(v, '.');
    forall i | 0 <= i < |v|
      ensures ' ' <= v[i] <= '~'
    {
      if v[i] != '.' {
        assert v[i] in v;
        var k :| 0 <= k < |parts| && v[i] in parts[k];
        assert VersionPart(parts[k]);
      }
    }
  }

  lemma AcceptMarkerKeeps(env: Env, slot: Slot, file: File, marker: string, nonce: Nonce, now: int, persist: bool,
                          otherBlocked: bool, firmware: bool, save: SaveResult)
    requires SlotInv(slot, slot.epoch, firmware) && !slot.receipt.Contains(nonce)
    requires EpochShape(slot.epoch)
    requires 0 < |marker| <= 128 && (forall i :: 0 <= i < |marker| ==> ' ' <= marker[i] <= '~')
    requires firmware ==> ValidVersion(marker)
    ensures var r := AcceptMarker(slot, file, marker, nonce, now, persist, otherBlocked, firmware, save);
      && SlotInv(r.slot, slot.epoch, firmware)
      && (r.SlotDone? ==> r.slot.receipt.marker == marker && r.slot.blocked == slot.blocked)
      && (r.SlotRefused? ==> r.slot == slot || (r.reason == CommitFailed && r.slot == slot.(blocked := true, lastWrite := now)))
    ensures WritesValid(env, MarkerWrite(slot, marker, nonce, now, persist, otherBlocked, firmware, save))
  {
    if slot.epoch != "" {
      NewReceiptValid(slot.epoch, marker, slot.receipt, nonce);
    }
  }

  // ---- The transformer and its confinement -------------------------------------------------------

  lemma ValidKeyHasEpoch(a: Adoption)
    requires ValidKey(a.authKey)
    ensures EpochOf(a) == Some(Epoch(Decode(a.authKey).value, a.useGCM))
  {
  }

  /** What a confined response may still do to an adopted state: nothing over HTTP, except that a CBC bootstrap on
      the public key may take a new key, and a CBC session may switch to GCM. */
  lemma ConfineShape(parse: UrlParser, current: Adoption, full: Adoption, out: Outcome, allowVolatile: bool, only: bool)
    requires current.Valid(parse) && full.Valid(parse)
    ensures var (next, confined, volatile) := Confine(parse, current, full, out, current.useGCM, allowVolatile, only);
      && next.Valid(parse)
      && (next == full || next == current || (!current.useGCM && next == current.(useGCM := true)))
      && (current.adopted && HasScheme(parse, current.informURL, "http") ==>
            || next == current
            || (!current.useGCM && next == current.(useGCM := true))
            || (!current.useGCM && current.DefaultKey() && !full.DefaultKey() && next == full))
      && (volatile.Some? ==> allowVolatile && next == current && volatile.value == full.cfgVersion)
  {
  }

  // ---- One step ---------------------------------------------------------------------------------

  lemma StoredStaysValid(env: Env, mem: Memory, next: Adoption, nonce: Nonce)
    requires MemInv(env, mem) && next.Valid(env.parse)
    ensures var state := mem.persistent.(stored := NextStored(mem, next, nonce));
      ValidState(env.parse, state) && (next == mem.persistent.stored.adoption ==> state == mem.persistent)
  {
    DecodeEncodeNonces(mem.window.Accept(nonce, true).protected);
    PushBounded(mem.window.protected, nonce);
    ValidKeyHasEpoch(next);
    ValidKeyHasEpoch(mem.persistent.stored.adoption);
  }

  lemma WindowStaysValid(env: Env, mem: Memory, next: Adoption, nonce: Nonce)
    requires MemInv(env, mem) && next.Valid(env.parse)
    ensures var current := mem.persistent.stored.adoption;
      var stored := NextStored(mem, next, nonce);
      var protect := next != current && EpochOf(next) == EpochOf(current);
      var accepted := if current.useGCM then mem.window.Accept(nonce, protect) else mem.window;
      && ValidNonceTexts(stored.nonces)
      && Rebase(accepted, stored).Some? && WindowInv(Rebase(accepted, stored).value, stored)
      && (EpochOf(next) == EpochOf(current) ==> Rebase(accepted, stored).value == accepted)
  {
    DecodeEncodeNonces(mem.window.Accept(nonce, true).protected);
    PushBounded(mem.window.protected, nonce);
    PushBounded(mem.window.recent, nonce);
    ValidKeyHasEpoch(next);
    ValidKeyHasEpoch(mem.persistent.stored.adoption);
  }

  lemma CommitKeepsInv(env: Env, mem: Memory, disk: Disk, input: Input, nonce: Nonce, next: Adoption, out: Outcome,
                       volatile: Option<string>)
    requires MemInv(env, mem) && next.Valid(env.parse)
    requires volatile.Some? ==> mem.config.volatileSync && next == mem.persistent.stored.adoption && ValidConfigValue(volatile.value, 128)
    ensures var r := CommitStep(env, mem, disk, input, nonce, next, out, volatile);
      && MemInv(env, r.mem) && WritesValid(env, r.writes) && |r.writes| <= 1
      && (r.reply.Rejected? ==> r.mem == mem)
  {
    hide ValidState, WindowInv, Rebase, Window.Accept, ConfigEpoch, TargetEpoch, AuthorizeTransition, ValidMarker;
    StoredStaysValid(env, mem, next, nonce);
    WindowStaysValid(env, mem, next, nonce);
  }

  /** The state an answer asks for is valid, and confined when the current one is adopted over plain HTTP. */
  lemma DecideShape(env: Env, mem: Memory, body: Body)
    requires MemInv(env, mem) && Decide(env, mem, body).Ok?
    ensures var d, current := Decide(env, mem, body).value, mem.persistent.stored.adoption;
      && d.next.Valid(env.parse)
      && (d.volatile.Some? ==> mem.config.volatileSync && d.next == current && ValidConfigValue(d.volatile.value, 128))
      && (d.next.adopted || d.next == current || d.next == Pending(current.informURL))
      && (current.adopted && HasScheme(env.parse, current.informURL, "http") ==>
            || d.next == current
            || (!current.useGCM && d.next == current.(useGCM := true))
            || (!current.useGCM && current.DefaultKey() && !d.next.DefaultKey() && d.next.adopted))
  {
    var current := mem.persistent.stored.adoption;
    ApplyShape(env.parse, current, body);
    var (full, out) := Apply(env.parse, current, body).value;
    ConfineShape(env.parse, current, full, out, mem.config.volatileSync, HasOnlyCfgVersion(body.response));
  }

  lemma AdoptionKeepsInv(env: Env, mem: Memory, disk: Disk, input: Input, nonce: Nonce, body: Body)
    requires MemInv(env, mem)
    ensures var r := AdoptionStep(env, mem, disk, input, nonce, body);
      && MemInv(env, r.mem) && WritesValid(env, r.writes) && |r.writes| <= 1
      && (r.reply.Rejected? ==> r.mem == mem)
  {
    if Decide(env, mem, body).Ok? {
      DecideShape(env, mem, body);
      var d := Decide(env, mem, body).value;
      CommitKeepsInv(env, mem, disk, input, nonce, d.next, d.outcome, d.volatile);
    }
  }

  lemma TargetKeepsInv(env: Env, mem: Memory, disk: Disk, input: Input, nonce: Nonce, version: string)
    requires MemInv(env, mem) && !Known(mem, nonce) && ValidVersion(version)
    ensures var r := TargetStep(mem, disk, input, nonce, version);
      && MemInv(env, r.mem) && WritesValid(env, r.writes) && |r.writes| <= 1
      && (r.reply.Rejected? ==>
            r.mem == mem || (r.reply.reason == CommitFailed && r.mem == mem.(firmware := mem.firmware.(blocked := true, lastWrite := input.now))))
  {
    hide ValidState, ValidConfigValue, ValidVersion, ConfigEpoch, TargetEpoch, AcceptMarker, MarkerWrite;
    hide ValidMarker, Push;
    VersionPrintable(version);
    AcceptMarkerKeeps(env, mem.firmware, disk.firmware, version, nonce, input.now, true, mem.receipts.blocked, true, input.save);
    PushBounded(mem.window.recent, nonce);
  }

  lemma ReceiptKeepsInv(env: Env, mem: Memory, disk: Disk, input: Input, nonce: Nonce, body: Body)
    requires MemInv(env, mem) && !Known(mem, nonce) && ClassifyReceipt(body).Some?
    ensures var r := ReceiptStep(mem, disk, input, nonce, ClassifyReceipt(body).value);
      && MemInv(env, r.mem) && WritesValid(env, r.writes) && |r.writes| <= 1
      && (r.reply.Rejected? ==>
            r.mem == mem || (r.reply.reason == CommitFailed && r.mem == mem.(receipts := mem.receipts.(blocked := true, lastWrite := input.now))))
  {
    hide ValidState, ValidConfigValue, ConfigEpoch, TargetEpoch, AcceptMarker, MarkerWrite, ValidMarker, Push;
    hide ClassifyText, PrintableValue;
    var version := ClassifyReceipt(body).value.cfgVersion;
    ClassifiedVersionPrintable(Field(body.exact.value, "mgmt_cfg"));
    AcceptMarkerKeeps(env, mem.receipts, disk.receipt, version, nonce, input.now, mem.config.mode == Persistent, false, false, input.save);
    PushBounded(mem.window.recent, nonce);
  }

  /** Inside the invariant the sync at the start of an exchange finds nothing to do. */
  lemma SyncIsIdle(env: Env, mem: Memory)
    requires MemInv(env, mem)
    ensures Rebase(mem.window, mem.persistent.stored) == Some(mem.window)
  {
  }

  /** An exchange of a valid memory: an answer that came while the process was ready, or nothing at all. */
  lemma InformIsAnswer(env: Env, mem: Memory, disk: Disk, input: Input)
    requires MemInv(env, mem)
    ensures InformStep(env, mem, disk, input) ==
            if !Ready(mem, input) then StepResult(mem, disk, Rejected(NotReady), [])
            else if input.exchange.NoReply? then StepResult(mem, disk, Rejected(NoAnswer), [])
            else AnswerStep(env, mem, disk, input, input.exchange.nonce, input.exchange.body)
  {
    hide AnswerStep, Ready, Rebase, MemInv;
    SyncIsIdle(env, mem);
  }

  /** What a rejected answer may leave behind: a blocked receipt kind after a failed commit, nothing else. */
  ghost predicate OnlyBlocked(mem: Memory, after: Memory, reply: Reply, now: int) {
    || after == mem
    || (reply == Rejected(CommitFailed) && after == mem.(receipts := mem.receipts.(blocked := true, lastWrite := now)))
    || (reply == Rejected(CommitFailed) && after == mem.(firmware := mem.firmware.(blocked := true, lastWrite := now)))
  }

  lemma AnswerKeepsInv(env: Env, mem: Memory, disk: Disk, input: Input, nonce: Nonce, body: Body)
    requires MemInv(env, mem)
    ensures var r := AnswerStep(env, mem, disk, input, nonce, body);
      && MemInv(env, r.mem) && WritesValid(env, r.writes) && |r.writes| <= 1
      && (r.reply.Rejected? ==> OnlyBlocked(mem, r.mem, r.reply, input.now))
  {
    hide ValidState, WindowInv, SlotInv, TargetStep, ReceiptStep, AdoptionStep, ClassifyReceipt, Known, ValidVersion;
    hide WriteValid;
    var current := mem.persistent.stored.adoption;
    var eligible := ReceiptsEligible(env, mem.config, current, current.useGCM);
    if current.useGCM && Known(mem, nonce) {
    } else if eligible && mem.config.firmwareSync && ClassifyTarget(body).Some? {
      TargetKeepsInv(env, mem, disk, input, nonce, ClassifyTarget(body).value);
    } else if eligible && ClassifyReceipt(body).Some? {
      ReceiptKeepsInv(env, mem, disk, input, nonce, body);
    } else {
      AdoptionKeepsInv(env, mem, disk, input, nonce, body);
    }
  }

  /** Every exchange keeps the invariant and hands only valid values to the savers. A rejected answer leaves adoption,
      replay window, receipts and both reported markers as they were; a failed commit blocks its receipt kind. */
  lemma InformKeepsInv(env: Env, mem: Memory, disk: Disk, input: Input)
    requires MemInv(env, mem)
    ensures var r := InformStep(env, mem, disk, input);
      && MemInv(env, r.mem) && WritesValid(env, r.writes) && |r.writes| <= 1
      && (r.reply.Rejected? ==> OnlyBlocked(mem, r.mem, r.reply, input.now))
  {
    hide AnswerStep, InformStep, Ready, MemInv, WriteValid;
    InformIsAnswer(env, mem, disk, input);
    if input.exchange.Decoded? {
      AnswerKeepsInv(env, mem, disk, input, input.exchange.nonce, input.exchange.body);
    }
  }

  // ---- Starts and runs --------------------------------------------------------------------------

  lemma LoadSlotInv(epoch: string, enabled: bool, firmware: bool, file: File, readable: bool)
    ensures SlotInv(LoadSlot(epoch, enabled, firmware, file, readable), epoch, firmware)
  {
  }

  /** A state that was loaded or created is valid and on disk. */
  lemma LoadedIsStored(parse: UrlParser, c: Config, request: Request, disk: Disk, save: SaveResult)
    ensures var (loaded, disk', writes) := LoadOrCreate(parse, c, request, disk, save);
      && (loaded.Some? ==> ValidState(parse, loaded.value) && disk'.state == loaded)
      && (forall i :: 0 <= i < |writes| ==> writes[i].StateWrite? && ValidState(parse, writes[i].state))
  {
    hide ValidState, Pending, Meets, NewIdentity;
  }

  lemma BootInv(env: Env, c: Config, s: State, disk: Disk, input: StartInput)
    requires c.Valid() && ValidState(env.parse, s) && s.stored.adoption.Valid(env.parse) && NewWindow(s.stored).Some?
    ensures MemInv(env, Boot(env, c, s, NewWindow(s.stored).value, disk, input))
  {
    hide ConfigEpoch, TargetEpoch, LoadSlot, ValidMarker;
    var mem := Boot(env, c, s, NewWindow(s.stored).value, disk, input);
    ValidKeyHasEpoch(s.stored.adoption);
    LoadSlotInv(ConfigEpoch(env, c, s), c.mode == Persistent, false, disk.receipt, input.receiptReadable);
    LoadSlotInv(TargetEpoch(env, c, s), !mem.receipts.blocked, true, disk.firmware, input.firmwareReadable);
    MarkerIsConfigValue(mem.receipts.receipt);
  }

  lemma MarkerIsConfigValue(r: Receipt)
    ensures ValidMarker(false, r) ==> ValidConfigValue(r.marker, 128)
  {
  }

  /** A start from any disk whatever - damaged files included - either fails or establishes the invariant. */
  lemma StartEstablishesInv(env: Env, disk: Disk, input: StartInput)
    ensures var r := StartStep(env, disk, input);
      r.proc.Up? ==> MemInv(env, r.proc.mem) && r.disk.state == Some(r.proc.mem.persistent)
    ensures forall w :: w in StartStep(env, disk, input).writes ==> Accepts(env, w)
  {
    hide ValidState, LoadOrCreate, MemInv, NewWindow;
    LoadedIsStored(env.parse, input.config, input.request, disk, input.save);
    var r := StartStep(env, disk, input);
    if r.proc.Up? {
      var loaded := LoadOrCreate(env.parse, input.config, input.request, disk, input.save).0;
      BootInv(env, input.config, loaded.value, r.disk, input);
    }
  }

  ghost predicate SysInv(env: Env, sys: System) {
    sys.proc.Up? ==> MemInv(env, sys.proc.mem)
  }

  lemma StepKeepsInv(env: Env, sys: System, e: Event)
    requires SysInv(env, sys)
    ensures SysInv(env, Step(env, sys, e).0)
    ensures forall w :: w in Step(env, sys, e).1 ==> Accepts(env, w)
  {
    hide InformStep, StartStep, MemInv, ValidState;
    match e
    case Stop =>
    case Start(input) => StartEstablishesInv(env, sys.disk, input);
    case Inform(input) =>
      if sys.proc.Up? {
        InformKeepsInv(env, sys.proc.mem, sys.disk, input);
      }
  }

  /** Over every run, from a stopped process and any disk: the invariant holds at the end, and no saver was ever
      called with a value that its own validation refuses. */
  lemma {:induction false} RunKeepsInv(env: Env, sys: System, events: seq<Event>)
    requires SysInv(env, sys)
    ensures SysInv(env, Run(env, sys, events))
    ensures forall w :: w in Writes(env, sys, events) ==> Accepts(env, w)
    decreases |events|
  {
    hide Step, SysInv, Accepts;
    if events != [] {
      StepKeepsInv(env, sys, events[0]);
      RunKeepsInv(env, Step(env, sys, events[0]).0, events[1..]);
    }
  }
}
