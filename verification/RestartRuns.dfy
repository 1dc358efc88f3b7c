/** What a process reports and what the next one reports: markers over whole runs, restarts and failed commits,
    and the pacing of receipt writes. */
module RestartRuns {
  import opened Basics
  import opened Text
  import opened Hex
  import opened Adoption
  import opened Classify
  import opened Identities
  import opened Receipts
  import opened ReplayWindow
  import opened GatewaySpec
  import opened GatewayInvariant
  import opened ReplayRuns

  /** From any disk, at the end of every run: unless the volatile exception is on, the reported configuration version is
      the accepted receipt's if there is one, else the adoption's; the reported firmware is the firmware receipt's. */
  lemma ReportedMarkers(env: Env, disk: Disk, events: seq<Event>)
    ensures var end := Run(env, System(Down, disk), events);
      end.proc.Up? ==>
        (&& (!end.proc.mem.config.volatileSync ==> end.proc.mem.reportedCfg == Marker(end.proc.mem))
         && end.proc.mem.reportedFirmware == end.proc.mem.firmware.receipt.marker)
  {
    RunKeepsInv(env, System(Down, disk), events);
  }

  ghost predicate OneProcess(events: seq<Event>) {
    forall i :: 0 <= i < |events| ==> events[i].Inform?
  }

  predicate Eligible(env: Env, mem: Memory) {
    ReceiptsEligible(env, mem.config, mem.persistent.stored.adoption, true)
  }

  // ---- Receipts on disk -------------------------------------------------------------------------

  /** The file of a receipt kind: while commits succeed it is the receipt in memory; after a failed commit it is that
      receipt or the one whose write was reported as failed. */
  ghost predicate FileMatches(slot: Slot, file: File, firmware: bool, failed: seq<Receipt>) {
    slot.receipt != NO_RECEIPT ==>
      || file == Present(slot.receipt)
      || (slot.blocked && exists r :: r in failed && file == Present(r) && ValidMarker(firmware, r) && r.epoch == slot.epoch)
  }

  /** A process in persistent mode: while receipts are eligible the stored state is its own, and every receipt it holds
      is on file. */
  ghost predicate Durable(env: Env, mem: Memory, disk: Disk, failedConfig: seq<Receipt>, failedTarget: seq<Receipt>) {
    && MemInv(env, mem) && mem.config.mode == Persistent
    && (Eligible(env, mem) ==> disk.state == Some(mem.persistent))
    && FileMatches(mem.receipts, disk.receipt, false, failedConfig)
    && FileMatches(mem.firmware, disk.firmware, true, failedTarget)
  }

  /** The receipts of a kind whose write failed after the new file was in place. */
  function Misreported(writes: seq<Write>, firmware: bool): seq<Receipt> {
    if writes == [] then []
    else
      var w := writes[|writes| - 1];
      Misreported(writes[..|writes| - 1], firmware) +
        if !w.StateWrite? && w.TargetWrite? == firmware && w.result == FailedInPlace then [w.receipt] else []
  }

  lemma {:induction false} MisreportedSplits(a: seq<Write>, b: seq<Write>, firmware: bool)
    ensures Misreported(a + b, firmware) == Misreported(a, firmware) + Misreported(b, firmware)
  {
    if b == [] {
      assert a + b == a;
    } else {
      MisreportedSplits(a, b[..|b| - 1], firmware);
      assert (a + b)[..|a + b| - 1] == a + b[..|b| - 1];
    }
  }

  /** While a receipt is eligible no answer touches the stored state: it came over HTTP with GCM. */
  lemma EligibleIsFrozen(env: Env, mem: Memory, disk: Disk, input: Input)
    requires MemInv(env, mem) && Eligible(env, mem)
    ensures var r := InformStep(env, mem, disk, input);
      r.mem.persistent == mem.persistent && r.disk.state == disk.state && r.mem.config == mem.config
  {
    hide InformStep, MemInv, Landed, Decide;
    InformKeepsConfig(env, mem, disk, input);
    InformStates(env, mem, disk, input);
    if input.exchange.Decoded? && Decide(env, mem, input.exchange.body).Ok? {
      DecideShape(env, mem, input.exchange.body);
    }
  }

  lemma InformKeepsConfig(env: Env, mem: Memory, disk: Disk, input: Input)
    requires MemInv(env, mem)
    ensures InformStep(env, mem, disk, input).mem.config == mem.config
  {
    hide InformStep, MemInv, Ready, AcceptMarker, MarkerWrite, Decide, ClassifyTarget, ClassifyReceipt, Known;
    hide Rebase, NextStored, ConfigEpoch, TargetEpoch;
    InformIsAnswer(env, mem, disk, input);
  }

  lemma MarkerFile(slot: Slot, file: File, marker: string, nonce: Nonce, now: int, otherBlocked: bool, firmware: bool,
                   save: SaveResult, failed: seq<Receipt>)
    requires FileMatches(slot, file, firmware, failed) && SlotInv(slot, slot.epoch, firmware)
    ensures var r := AcceptMarker(slot, file, marker, nonce, now, true, otherBlocked, firmware, save);
      var writes := MarkerWrite(slot, marker, nonce, now, true, otherBlocked, firmware, save);
      && FileMatches(r.slot, r.file, firmware, failed + Misreported(writes, firmware))
      && r.slot.epoch == slot.epoch && Misreported(writes, !firmware) == []
      && (r.slot.receipt != slot.receipt ==> r.slot.receipt.marker == marker)
  {
    var writes := MarkerWrite(slot, marker, nonce, now, true, otherBlocked, firmware, save);
    if writes != [] {
      assert writes[..|writes| - 1] == [];
      var next := NewReceipt(slot.epoch, marker, slot.receipt, nonce);
      assert writes[0].result == FailedInPlace ==> next in failed + Misreported(writes, firmware);
    }
    forall r | r in failed
      ensures r in failed + Misreported(writes, firmware)
    {
    }
  }

  lemma FileMatchesMore(slot: Slot, file: File, firmware: bool, failed: seq<Receipt>, more: seq<Receipt>)
    requires FileMatches(slot, file, firmware, failed)
    ensures FileMatches(slot, file, firmware, failed + more)
  {
    forall r | r in failed
      ensures r in failed + more
    {
    }
  }

  /** An exchange of an eligible process, told by what it does to the two receipt kinds. */
  lemma EligibleStep(env: Env, mem: Memory, disk: Disk, input: Input)
    requires MemInv(env, mem) && Eligible(env, mem)
    ensures var r := InformStep(env, mem, disk, input);
      || (r.mem.receipts == mem.receipts && r.mem.firmware == mem.firmware && r.disk == disk && NoReceiptWrite(r.writes))
      || (input.exchange.Decoded? && exists marker :: ConfigEffect(mem, disk, input, r, marker, input.exchange.nonce))
      || (input.exchange.Decoded? && exists marker :: TargetEffect(mem, disk, input, r, marker, input.exchange.nonce))
  {
    hide InformStep, MemInv, AcceptMarker, MarkerWrite, Decide, CommitStep, ClassifyTarget, ClassifyReceipt, Known;
    InformIsAnswer(env, mem, disk, input);
    var r := InformStep(env, mem, disk, input);
    if Ready(mem, input) && input.exchange.Decoded? {
      var nonce, body := input.exchange.nonce, input.exchange.body;
      if Known(mem, nonce) {
      } else if mem.config.firmwareSync && ClassifyTarget(body).Some? {
        assert TargetEffect(mem, disk, input, r, ClassifyTarget(body).value, nonce);
      } else if ClassifyReceipt(body).Some? {
        assert ConfigEffect(mem, disk, input, r, ClassifyReceipt(body).value.cfgVersion, nonce);
      } else if Decide(env, mem, body).Ok? {
        DecideShape(env, mem, body);
        EligibleCommit(env, mem, disk, input, nonce, Decide(env, mem, body).value);
      }
    }
  }

  /** An answer that asks for no other state writes nothing. */
  lemma EligibleCommit(env: Env, mem: Memory, disk: Disk, input: Input, nonce: Nonce, d: Decision)
    requires d.next == mem.persistent.stored.adoption
    ensures var r := CommitStep(env, mem, disk, input, nonce, d.next, d.outcome, d.volatile);
      r.mem.receipts == mem.receipts && r.mem.firmware == mem.firmware && r.disk == disk && r.writes == []
  {
    hide Rebase, NextStored, ValidState, ConfigEpoch, TargetEpoch;
  }

  predicate NoReceiptWrite(writes: seq<Write>) {
    forall i :: 0 <= i < |writes| ==> writes[i].StateWrite?
  }

  ghost predicate ConfigEffect(mem: Memory, disk: Disk, input: Input, r: StepResult, marker: string, nonce: Nonce) {
    var persist := mem.config.mode == Persistent;
    var a := AcceptMarker(mem.receipts, disk.receipt, marker, nonce, input.now, persist, false, false, input.save);
    && input.now >= UNIX_EPOCH
    && r.mem.receipts == a.slot && r.disk == disk.(receipt := a.file) && r.mem.firmware == mem.firmware
    && r.writes == MarkerWrite(mem.receipts, marker, nonce, input.now, persist, false, false, input.save)
  }

  ghost predicate TargetEffect(mem: Memory, disk: Disk, input: Input, r: StepResult, marker: string, nonce: Nonce) {
    var a := AcceptMarker(mem.firmware, disk.firmware, marker, nonce, input.now, true, mem.receipts.blocked, true, input.save);
    && input.now >= UNIX_EPOCH
    && r.mem.firmware == a.slot && r.disk == disk.(firmware := a.file) && r.mem.receipts == mem.receipts
    && r.writes == MarkerWrite(mem.firmware, marker, nonce, input.now, true, mem.receipts.blocked, true, input.save)
  }

  lemma HoldingIsEligible(env: Env, mem: Memory)
    requires MemInv(env, mem)
    ensures !Eligible(env, mem) ==> mem.receipts.receipt == NO_RECEIPT && mem.firmware.receipt == NO_RECEIPT
    ensures Eligible(env, mem) ==> ConfigEpoch(env, mem.config, mem.persistent) != ""
  {
    hide WindowInv, ValidMarker;
    ValidKeyHasEpoch(mem.persistent.stored.adoption);
  }

  /** An exchange of a process that may not hold receipts writes none and ends with none; when it makes receipts
      eligible, the state that did so is on disk. */
  lemma IneligibleStep(env: Env, mem: Memory, disk: Disk, input: Input)
    requires MemInv(env, mem) && !Eligible(env, mem)
    ensures var r := InformStep(env, mem, disk, input);
      && r.mem.config == mem.config && NoReceiptWrite(r.writes)
      && r.mem.receipts.receipt == NO_RECEIPT && r.mem.firmware.receipt == NO_RECEIPT
      && (Eligible(env, r.mem) ==> r.disk.state == Some(r.mem.persistent))
      && (forall firmware :: SlotOf(r.mem, firmware).lastWrite == SlotOf(mem, firmware).lastWrite
                             && SlotOf(r.mem, firmware).blocked == SlotOf(mem, firmware).blocked)
  {
    hide InformStep, MemInv, Ready, ClassifyTarget, ClassifyReceipt, Decide, CommitStep, Known, TargetStep, ReceiptStep;
    HoldingIsEligible(env, mem);
    InformIsAnswer(env, mem, disk, input);
    if Ready(mem, input) && input.exchange.Decoded? && Decide(env, mem, input.exchange.body).Ok? {
      var d := Decide(env, mem, input.exchange.body).value;
      DecideShape(env, mem, input.exchange.body);
      IneligibleCommit(env, mem, disk, input, input.exchange.nonce, d);
      var r := InformStep(env, mem, disk, input);
      assert SlotOf(r.mem, false) == r.mem.receipts && SlotOf(r.mem, true) == r.mem.firmware;
    }
  }

  lemma IneligibleCommit(env: Env, mem: Memory, disk: Disk, input: Input, nonce: Nonce, d: Decision)
    requires MemInv(env, mem) && !Eligible(env, mem) && d.next.Valid(env.parse)
    ensures var r := CommitStep(env, mem, disk, input, nonce, d.next, d.outcome, d.volatile);
      && r.mem.config == mem.config && NoReceiptWrite(r.writes)
      && (r.mem.persistent == mem.persistent || r.disk.state == Some(r.mem.persistent))
      && (forall firmware :: SlotOf(r.mem, firmware).receipt in {SlotOf(mem, firmware).receipt, NO_RECEIPT}
                             && SlotOf(r.mem, firmware).lastWrite == SlotOf(mem, firmware).lastWrite
                             && SlotOf(r.mem, firmware).blocked == SlotOf(mem, firmware).blocked)
  {
    hide MemInv, ValidState, Rebase, NextStored, AuthorizeTransition, ConfigEpoch, TargetEpoch;
    StoredStaysValid(env, mem, d.next, nonce);
  }

  lemma NoMisreport(writes: seq<Write>, firmware: bool)
    requires NoReceiptWrite(writes)
    ensures Misreported(writes, firmware) == []
  {
  }

  lemma StepStaysDurable(env: Env, mem: Memory, disk: Disk, input: Input, failedConfig: seq<Receipt>,
                         failedTarget: seq<Receipt>)
    requires Durable(env, mem, disk, failedConfig, failedTarget)
    ensures var r := InformStep(env, mem, disk, input);
      && Durable(env, r.mem, r.disk, failedConfig + Misreported(r.writes, false), failedTarget + Misreported(r.writes, true))
      && r.mem.config == mem.config
  {
    hide InformStep, MemInv, AcceptMarker, MarkerWrite, Misreported, ReceiptsEligible;
    var r := InformStep(env, mem, disk, input);
    InformKeepsInv(env, mem, disk, input);
    if !Eligible(env, mem) {
      IneligibleStep(env, mem, disk, input);
    } else {
      EligibleIsFrozen(env, mem, disk, input);
      EligibleStep(env, mem, disk, input);
      FilesStayMatched(env, mem, disk, input, failedConfig, failedTarget);
    }
  }

  lemma FilesStayMatched(env: Env, mem: Memory, disk: Disk, input: Input, failedConfig: seq<Receipt>,
                         failedTarget: seq<Receipt>)
    requires Durable(env, mem, disk, failedConfig, failedTarget) && Eligible(env, mem)
    ensures var r := InformStep(env, mem, disk, input);
      && FileMatches(r.mem.receipts, r.disk.receipt, false, failedConfig + Misreported(r.writes, false))
      && FileMatches(r.mem.firmware, r.disk.firmware, true, failedTarget + Misreported(r.writes, true))
  {
    hide InformStep, AcceptMarker, MarkerWrite, ReceiptsEligible, FileMatches, ValidState, WindowInv, ConfigEpoch;
    hide TargetEpoch;
    var r := InformStep(env, mem, disk, input);
    EligibleStep(env, mem, disk, input);
    FileMatchesMore(mem.receipts, disk.receipt, false, failedConfig, Misreported(r.writes, false));
    FileMatchesMore(mem.firmware, disk.firmware, true, failedTarget, Misreported(r.writes, true));
    if marker, nonce :| ConfigEffect(mem, disk, input, r, marker, nonce) {
      MarkerFile(mem.receipts, disk.receipt, marker, nonce, input.now, false, false, input.save, failedConfig);
    } else if marker, nonce :| TargetEffect(mem, disk, input, r, marker, nonce) {
      MarkerFile(mem.firmware, disk.firmware, marker, nonce, input.now, mem.receipts.blocked, true, input.save, failedTarget);
    } else {
      NoMisreport(r.writes, false);
      NoMisreport(r.writes, true);
    }
  }

  lemma {:induction false} RunStaysDurable(env: Env, mem: Memory, disk: Disk, events: seq<Event>,
                                           failedConfig: seq<Receipt>, failedTarget: seq<Receipt>)
    requires Durable(env, mem, disk, failedConfig, failedTarget) && OneProcess(events)
    ensures var end, writes := Run(env, System(Up(mem), disk), events), Writes(env, System(Up(mem), disk), events);
      && end.proc.Up? && end.proc.mem.config == mem.config
      && Durable(env, end.proc.mem, end.disk, failedConfig + Misreported(writes, false), failedTarget + Misreported(writes, true))
    decreases |events|
  {
    hide InformStep, Durable;
    if events == [] {
      assert failedConfig + [] == failedConfig && failedTarget + [] == failedTarget;
    } else {
      var r := InformStep(env, mem, disk, events[0].input);
      var rest := Writes(env, System(Up(r.mem), r.disk), events[1..]);
      StepStaysDurable(env, mem, disk, events[0].input, failedConfig, failedTarget);
      RunStaysDurable(env, r.mem, r.disk, events[1..],
                      failedConfig + Misreported(r.writes, false), failedTarget + Misreported(r.writes, true));
      MisreportedSplits(r.writes, rest, false);
      MisreportedSplits(r.writes, rest, true);
      Regroup(failedConfig, Misreported(r.writes, false), Misreported(rest, false));
      Regroup(failedTarget, Misreported(r.writes, true), Misreported(rest, true));
    }
  }

  lemma Regroup(a: seq<Receipt>, b: seq<Receipt>, c: seq<Receipt>)
    ensures a + b + c == a + (b + c)
  {
  }

  /** Every process that starts in persistent mode is durable, whatever the disk held. */
  lemma StartIsDurable(env: Env, disk: Disk, start: StartInput)
    requires start.config.mode == Persistent && StartStep(env, disk, start).proc.Up?
    ensures var r := StartStep(env, disk, start);
      r.proc.mem.config == start.config && Durable(env, r.proc.mem, r.disk, [], [])
  {
    hide MemInv, LoadOrCreate, ConfigEpoch, TargetEpoch, ReceiptsEligible, NewWindow;
    StartEstablishesInv(env, disk, start);
  }

  // ---- The next process -------------------------------------------------------------------------

  /** A start with the same configuration, readable files, wishes that the stored identity meets and nothing else in
      the way. */
  predicate SameAgain(start: StartInput, mem: Memory) {
    && start.config == mem.config && start.early && start.late && start.receiptReadable && start.firmwareReadable
    && Meets(mem.persistent.identity, start.request)
  }

  /** A file on which the load of configuration receipts fails. */
  ghost predicate Damaged(file: File) {
    file == Unreadable || (file.Present? && !ValidMarker(false, file.receipt))
  }

  /** The start after an eligible process loads its state and looks at its files. */
  lemma StartAgain(env: Env, mem: Memory, disk: Disk, start: StartInput)
    requires MemInv(env, mem) && Eligible(env, mem) && disk.state == Some(mem.persistent) && SameAgain(start, mem)
    ensures StartStep(env, disk, start) ==
            StartResult(Up(Boot(env, mem.config, mem.persistent, NewWindow(mem.persistent.stored).value, disk, start)), disk, [])
    ensures NewWindow(mem.persistent.stored).Some?
  {
    hide Boot;
    ValidKeyHasEpoch(mem.persistent.stored.adoption);
    assert LoadOrCreate(env.parse, start.config, start.request, disk, start.save) == (Some(mem.persistent), disk, []);
  }

  /** What the next process makes of the files. The configuration receipt on file is always found again. The firmware
      receipt on file is found again if and only if the configuration receipt file is not damaged: otherwise the start
      blocks both kinds and the next process reports no firmware version. */
  lemma StartFromDurable(env: Env, mem: Memory, disk: Disk, start: StartInput, failedConfig: seq<Receipt>,
                         failedTarget: seq<Receipt>)
    requires Durable(env, mem, disk, failedConfig, failedTarget) && SameAgain(start, mem)
    ensures var r := StartStep(env, disk, start);
      && (mem.receipts.receipt != NO_RECEIPT ==>
            && r.proc.Up? && r.proc.mem.persistent == mem.persistent && !Damaged(disk.receipt)
            && Present(r.proc.mem.receipts.receipt) == disk.receipt && r.proc.mem.reportedCfg == disk.receipt.receipt.marker)
      && (mem.firmware.receipt != NO_RECEIPT ==>
            && r.proc.Up? && r.proc.mem.persistent == mem.persistent && disk.firmware.Present?
            && (r.proc.mem.reportedFirmware == disk.firmware.receipt.marker <==> !Damaged(disk.receipt))
            && (Damaged(disk.receipt) ==>
                  r.proc.mem.reportedFirmware == "" && r.proc.mem.receipts.blocked && r.proc.mem.firmware.receipt == NO_RECEIPT))
  {
    hide ValidState, WindowInv, ConfigEpoch, TargetEpoch, StartStep, ReceiptsEligible;
    if mem.receipts.receipt != NO_RECEIPT || mem.firmware.receipt != NO_RECEIPT {
      HoldingIsEligible(env, mem);
      StartAgain(env, mem, disk, start);
    }
  }

  /** Restart continuity. Take any successful start in persistent mode from any disk, any answers and write failures
      after that, and a start with the same configuration. Once a configuration receipt is held, the next process reports
      the version that this one reports or - after a commit that was reported as failed - the version of that commit,
      and nothing else. Once a firmware receipt is held, the same is true of the firmware version if and only if the
      configuration receipt file is not damaged; if it is, the next process reports none. */
  lemma RestartReports(env: Env, disk: Disk, first: StartInput, events: seq<Event>, again: StartInput)
    requires first.config.mode == Persistent && StartStep(env, disk, first).proc.Up? && OneProcess(events)
    ensures var started := StartStep(env, disk, first); var sys := System(started.proc, started.disk);
      var end, writes := Run(env, sys, events), Writes(env, sys, events);
      && end.proc.Up?
      && (SameAgain(again, end.proc.mem) ==>
            var mem, next := end.proc.mem, StartStep(env, end.disk, again).proc;
            && (mem.receipts.receipt != NO_RECEIPT ==>
                  next.Up? && Continues(next.mem.reportedCfg, mem.reportedCfg, mem.receipts, Misreported(writes, false)))
            && (mem.firmware.receipt != NO_RECEIPT ==>
                  && next.Up?
                  && (Damaged(end.disk.receipt) ==> next.mem.reportedFirmware == "")
                  && (!Damaged(end.disk.receipt) <==>
                        Continues(next.mem.reportedFirmware, mem.reportedFirmware, mem.firmware, Misreported(writes, true)))))
  {
    hide StartStep, Run, Writes, Misreported, Durable;
    var started := StartStep(env, disk, first);
    var sys := System(started.proc, started.disk);
    var writes := Writes(env, sys, events);
    StartIsDurable(env, disk, first);
    RunStaysDurable(env, started.proc.mem, started.disk, events, [], []);
    assert [] + Misreported(writes, false) == Misreported(writes, false);
    assert [] + Misreported(writes, true) == Misreported(writes, true);
    var end := Run(env, sys, events);
    if SameAgain(again, end.proc.mem) {
      StartFromDurable(env, end.proc.mem, end.disk, again, Misreported(writes, false), Misreported(writes, true));
      HeldContinues(env, end.proc.mem, end.disk, Misreported(writes, false), Misreported(writes, true));
    }
  }

  /** The marker that was reported, or that of a commit that was reported as failed and blocked its kind. */
  ghost predicate Continues(next: string, reported: string, slot: Slot, failed: seq<Receipt>) {
    next == reported || (slot.blocked && exists f :: f in failed && f.Valid() && next == f.marker)
  }

  lemma HeldContinues(env: Env, mem: Memory, disk: Disk, failedConfig: seq<Receipt>, failedTarget: seq<Receipt>)
    requires Durable(env, mem, disk, failedConfig, failedTarget)
    ensures mem.receipts.receipt != NO_RECEIPT ==>
              disk.receipt.Present? && Continues(disk.receipt.receipt.marker, mem.reportedCfg, mem.receipts, failedConfig)
    ensures mem.firmware.receipt != NO_RECEIPT ==>
              && disk.firmware.Present? && mem.reportedFirmware != ""
              && Continues(disk.firmware.receipt.marker, mem.reportedFirmware, mem.firmware, failedTarget)
  {
    hide ValidState, WindowInv, ConfigEpoch, TargetEpoch, ReceiptsEligible;
  }

  // ---- A restart that forgets the firmware version ----------------------------------------------

  const GCM_TEXT := "use_aes_gcm" + "=" + "true"

  /** An answer that switches the session to GCM, and one that names a firmware version. */
  const GCM_ANSWER := Body(64, true, None, Some(Response("setparam", "", 0, GCM_TEXT, "", None, "")))

  function TargetAnswer(version: string): Body {
    Body(64, true, Some(map["_type" := "upgrade", "version" := version]), None)
  }

  /** The process is ready, the answer arrives and every write succeeds. */
  predicate Answered(input: Input, body: Body) {
    && input.networkCurrent && input.observationCurrent && input.reportOk && input.now >= UNIX_EPOCH
    && input.exchange.Decoded? && input.exchange.body == body && input.save == Saved
  }

  lemma OneLine(s: string)
    requires forall i :: 0 <= i < |s| ==> ' ' <= s[i] <= '~'
    ensures MgmtLines(s) == [s]
  {
    assert NewlineFor(s) == s;
    OnePart(s);
  }

  lemma {:induction false} OnePart(s: string)
    requires forall i :: 0 <= i < |s| ==> ' ' <= s[i] <= '~'
    ensures Split(s, '\n') == [s]
  {
    if s != "" {
      OnePart(s[1..]);
      assert [s[0]] + s[1..] == s;
    }
  }

  /** A text of one plain setting is applied as that setting. */
  lemma SettingApplies(parse: UrlParser, a: Adoption, name: string, value: string)
    requires ValidToken(name, 64) && 0 < |value| <= 128 && PrintableValue(value)
    requires value[0] != ' ' && value[|value| - 1] != ' '
    ensures ApplyMgmtText(parse, a, name + "=" + value) == ApplySetting(parse, a, name, value)
  {
    hide Trim, Cut, ApplySetting, MgmtLines, MgmtEntry, ReceiptEntry;
    var line := name + "=" + value;
    OneLine(line);
    SettingLine(name, value);
    EntriesAgree(line);
    var entries := MgmtEntries([line]);
    assert entries[0] == Setting(name, value) && entries[1..] == [];
    var next := ApplySetting(parse, a, name, value);
    assert next.Some? ==> ApplyEntries(parse, next.value, {} + {name}, entries[1..]) == next;
  }

  lemma GcmTextApplies(parse: UrlParser, a: Adoption)
    ensures ApplyMgmtText(parse, a, GCM_TEXT) == Some(a.(useGCM := true))
  {
    hide ApplyMgmtText, ParseConfigBoolean;
    SettingApplies(parse, a, "use_aes_gcm", "true");
    TrueIsTrue();
  }

  predicate OverHttp(env: Env, a: Adoption) {
    a.adopted && !a.DefaultKey() && HasScheme(env.parse, a.informURL, "http")
  }

  lemma GcmIsDecided(env: Env, mem: Memory)
    requires MemInv(env, mem) && OverHttp(env, mem.persistent.stored.adoption) && !mem.persistent.stored.adoption.useGCM
    ensures var d := Decide(env, mem, GCM_ANSWER);
      d.Ok? && d.value.next == mem.persistent.stored.adoption.(useGCM := true) && d.value.volatile.None?
  {
    hide ApplyMgmtText, HasOnlyCfgVersion;
    GcmTextApplies(env.parse, mem.persistent.stored.adoption);
    SetParamIsToken("setparam");
  }

  /** The process after the switch: GCM is on, on disk too, under a new epoch in which nothing was received yet. */
  ghost predicate SwitchedOn(env: Env, mem: Memory, disk: Disk, after: Memory, disk': Disk, now: int) {
    && after.persistent.stored.adoption == mem.persistent.stored.adoption.(useGCM := true) && after.config == mem.config
    && disk' == disk.(state := Some(after.persistent)) && after.lastInform == now
    && after.window.recent == [] && after.window.protected == []
    && after.receipts.receipt == NO_RECEIPT && after.receipts.blocked == mem.receipts.blocked
    && after.firmware.receipt == NO_RECEIPT && after.firmware.blocked == mem.firmware.blocked
    && after.firmware.lastWrite == mem.firmware.lastWrite
  }

  lemma CommitSwitches(env: Env, mem: Memory, disk: Disk, input: Input, nonce: Nonce, next: Adoption, out: Outcome)
    requires MemInv(env, mem) && !mem.persistent.stored.adoption.useGCM && input.save == Saved
    requires next == mem.persistent.stored.adoption.(useGCM := true) && next.Valid(env.parse)
    ensures var r := CommitStep(env, mem, disk, input, nonce, next, out, None);
      SwitchedOn(env, mem, disk, r.mem, r.disk, input.now)
  {
    hide ConfigEpoch, TargetEpoch, ValidState, AuthorizeTransition, MemInv;
    StoredStaysValid(env, mem, next, nonce);
    WindowStaysValid(env, mem, next, nonce);
    KeysHaveEpochs(env, mem, next);
    assert DecodeNonces([]) == [];
  }

  lemma KeysHaveEpochs(env: Env, mem: Memory, next: Adoption)
    requires MemInv(env, mem) && next.Valid(env.parse)
    ensures EpochOf(next) == Some(Epoch(Decode(next.authKey).value, next.useGCM))
    ensures var a := mem.persistent.stored.adoption;
      EpochOf(a) == Some(Epoch(Decode(a.authKey).value, a.useGCM)) && mem.window.epoch == EpochOf(a).value
  {
    ValidKeyHasEpoch(next);
    ValidKeyHasEpoch(mem.persistent.stored.adoption);
  }

  lemma GcmIsSwitchedOn(env: Env, mem: Memory, disk: Disk, input: Input)
    requires MemInv(env, mem) && OverHttp(env, mem.persistent.stored.adoption) && !mem.persistent.stored.adoption.useGCM
    requires Answered(input, GCM_ANSWER) && Ready(mem, input)
    ensures var r := InformStep(env, mem, disk, input); SwitchedOn(env, mem, disk, r.mem, r.disk, input.now)
  {
    hide InformStep, MemInv, Ready, Decide, SwitchedOn, CommitStep;
    GcmIsDecided(env, mem);
    var d := Decide(env, mem, GCM_ANSWER).value;
    InformIsAnswer(env, mem, disk, input);
    DecideShape(env, mem, GCM_ANSWER);
    CommitSwitches(env, mem, disk, input, input.exchange.nonce, d.next, d.outcome);
  }

  lemma TargetIsAccepted(env: Env, mem: Memory, disk: Disk, input: Input, version: string)
    requires MemInv(env, mem) && Eligible(env, mem) && mem.config.firmwareSync && !mem.receipts.blocked
    requires mem.firmware.receipt == NO_RECEIPT && !mem.firmware.blocked && mem.firmware.lastWrite == 0
    requires Answered(input, TargetAnswer(version)) && Ready(mem, input) && ValidVersion(version)
    requires !mem.window.Contains(input.exchange.nonce) && mem.receipts.receipt == NO_RECEIPT
    ensures var r := InformStep(env, mem, disk, input);
      r.mem.firmware.receipt.marker == version && r.mem.reportedFirmware == version && r.disk == disk.(firmware := r.disk.firmware)
  {
    hide InformStep, Ready, ValidVersion, ValidState, ConfigEpoch, WindowInv;
    InformIsAnswer(env, mem, disk, input);
    HoldingIsEligible(env, mem);
    VersionPrintable(version);
    NewReceiptValid(mem.firmware.epoch, version, NO_RECEIPT, input.exchange.nonce);
  }

  /** A process starts in CBC with a receipt file it cannot read, and does not look at it: receipts are not eligible.
      It is switched to GCM, is told a firmware version, reports it and keeps it on file. The next process finds the
      configuration receipts damaged, loads neither kind, and reports no firmware version. */
  lemma DamagedFileLosesFirmware(env: Env, disk: Disk, first: StartInput, upgrade: Input, target: Input,
                                 version: string,
                                 again: StartInput)
    requires first.config.mode == Persistent && first.config.firmwareSync && StartStep(env, disk, first).proc.Up?
    requires disk.receipt == Unreadable && ValidVersion(version)
    requires var a := StartStep(env, disk, first).proc.mem.persistent.stored.adoption; OverHttp(env, a) && !a.useGCM
    requires Answered(upgrade, GCM_ANSWER) && Answered(target, TargetAnswer(version)) && upgrade.now <= target.now
    ensures var started := StartStep(env, disk, first);
      var end := Run(env, System(started.proc, started.disk), [Inform(upgrade), Inform(target)]);
      && end.proc.Up? && end.proc.mem.reportedFirmware == version && version != ""
      && (SameAgain(again, end.proc.mem) ==>
            var next := StartStep(env, end.disk, again).proc; next.Up? && next.mem.reportedFirmware == "")
  {
    hide InformStep, StartStep, ValidVersion;
    var started, events := StartStep(env, disk, first), [Inform(upgrade), Inform(target)];
    VersionPrintable(version);
    TwoSteps(env, disk, first, upgrade, target, version);
    RunOfTwo(env, started.proc.mem, started.disk, upgrade, target);
    RestartReports(env, disk, first, events, again);
  }

  lemma RunOfTwo(env: Env, mem: Memory, disk: Disk, first: Input, second: Input)
    ensures var r := InformStep(env, mem, disk, first); var end := InformStep(env, r.mem, r.disk, second);
      Run(env, System(Up(mem), disk), [Inform(first), Inform(second)]) == System(Up(end.mem), end.disk)
  {
    hide InformStep;
    var events := [Inform(first), Inform(second)];
    assert events[1..] == [Inform(second)];
    var r := InformStep(env, mem, disk, first);
    assert Run(env, System(Up(r.mem), r.disk), [Inform(second)]) ==
           Run(env, Step(env, System(Up(r.mem), r.disk), Inform(second)).0, []);
  }

  lemma TwoSteps(env: Env, disk: Disk, first: StartInput, upgrade: Input, target: Input, version: string)
    requires first.config.mode == Persistent && first.config.firmwareSync && StartStep(env, disk, first).proc.Up?
    requires disk.receipt == Unreadable && ValidVersion(version)
    requires var a := StartStep(env, disk, first).proc.mem.persistent.stored.adoption; OverHttp(env, a) && !a.useGCM
    requires Answered(upgrade, GCM_ANSWER) && Answered(target, TargetAnswer(version)) && upgrade.now <= target.now
    ensures var started := StartStep(env, disk, first);
      var r := InformStep(env, started.proc.mem, started.disk, upgrade);
      var end := InformStep(env, r.mem, r.disk, target);
      && end.mem.reportedFirmware == version && end.mem.firmware.receipt.marker == version && end.disk.receipt == Unreadable
  {
    hide InformStep, StartStep, ValidVersion, MemInv, ValidState, ConfigEpoch, TargetEpoch;
    var started := StartStep(env, disk, first);
    var mem := started.proc.mem;
    StartEstablishesInv(env, disk, first);
    StartIsDurable(env, disk, first);
    CbcStartIsEmpty(env, disk, first);
    var r := InformStep(env, mem, started.disk, upgrade);
    ValidMemIsReady(env, mem, upgrade);
    InformKeepsInv(env, mem, started.disk, upgrade);
    GcmIsSwitchedOn(env, mem, started.disk, upgrade);
    ValidMemIsReady(env, r.mem, target);
    TargetIsAccepted(env, r.mem, r.disk, target, version);
  }

  lemma ValidMemIsReady(env: Env, mem: Memory, input: Input)
    requires MemInv(env, mem) && mem.firmware.receipt == NO_RECEIPT && input.exchange.Decoded?
    requires mem.lastInform == 0 || UNIX_EPOCH <= mem.lastInform <= input.now
    ensures Answered(input, input.exchange.body) ==> Ready(mem, input)
  {
  }

  /** A start in CBC reads no receipt file and blocks nothing. */
  lemma CbcStartIsEmpty(env: Env, disk: Disk, start: StartInput)
    requires StartStep(env, disk, start).proc.Up? && !StartStep(env, disk, start).proc.mem.persistent.stored.adoption.useGCM
    ensures var r := StartStep(env, disk, start); var empty := Slot(NO_RECEIPT, "", false, 0);
      r.proc.mem.receipts == empty && r.proc.mem.firmware == empty && r.proc.mem.lastInform == 0 && r.disk.receipt == disk.receipt
  {
  }

  // ---- After a failure, and pacing --------------------------------------------------------------

  predicate IsKind(w: Write, firmware: bool) {
    !w.StateWrite? && w.TargetWrite? == firmware
  }

  ghost function SlotOf(mem: Memory, firmware: bool): Slot {
    if firmware then mem.firmware else mem.receipts
  }

  /** The times of the writes of one receipt kind. */
  function Times(writes: seq<Write>, firmware: bool): seq<int> {
    if writes == [] then []
    else (if IsKind(writes[0], firmware) then [writes[0].at] else []) + Times(writes[1..], firmware)
  }

  /** Consecutive times lie at least 30 seconds apart, and so does the first from a previous one. */
  ghost predicate Spaced(times: seq<int>, previous: int) {
    times == [] || ((previous != 0 ==> times[0] - previous >= RECEIPT_INTERVAL) && times[0] > 0 && Spaced(times[1..], times[0]))
  }

  /** What an exchange does to a receipt kind: no write and the same bookkeeping, or one write at its own time. */
  ghost predicate Paced(before: Slot, after: Slot, writes: seq<Write>, now: int, firmware: bool) {
    || (Times(writes, firmware) == [] && after.lastWrite == before.lastWrite && after.blocked == before.blocked)
    || (&& Times(writes, firmware) == [now] && |writes| == 1 && after.lastWrite == now >= UNIX_EPOCH && !before.blocked
        && (before.lastWrite != 0 ==> now - before.lastWrite >= RECEIPT_INTERVAL)
        && (after.blocked <==> writes[0].result != Saved))
  }

  lemma MarkerPaced(slot: Slot, file: File, marker: string, nonce: Nonce, now: int, persist: bool, otherBlocked: bool,
                    firmware: bool, save: SaveResult)
    requires now >= UNIX_EPOCH
    ensures var a := AcceptMarker(slot, file, marker, nonce, now, persist, otherBlocked, firmware, save);
      var writes := MarkerWrite(slot, marker, nonce, now, persist, otherBlocked, firmware, save);
      Paced(slot, a.slot, writes, now, firmware) && Times(writes, !firmware) == []
  {
    var writes := MarkerWrite(slot, marker, nonce, now, persist, otherBlocked, firmware, save);
    if writes != [] {
      assert writes[1..] == [];
    }
  }

  lemma {:induction false} NoReceiptTimes(writes: seq<Write>, firmware: bool)
    requires NoReceiptWrite(writes)
    ensures Times(writes, firmware) == []
  {
    if writes != [] {
      NoReceiptTimes(writes[1..], firmware);
    }
  }

  lemma StepPaces(env: Env, mem: Memory, disk: Disk, input: Input, firmware: bool)
    requires MemInv(env, mem)
    ensures var r := InformStep(env, mem, disk, input);
      Paced(SlotOf(mem, firmware), SlotOf(r.mem, firmware), r.writes, input.now, firmware) && |r.writes| <= 1
  {
    hide InformStep, MemInv, AcceptMarker, MarkerWrite, Times, ReceiptsEligible, WritesValid;
    var r := InformStep(env, mem, disk, input);
    InformKeepsInv(env, mem, disk, input);
    if !Eligible(env, mem) {
      IneligibleStep(env, mem, disk, input);
      NoReceiptTimes(r.writes, firmware);
    } else {
      EligibleStep(env, mem, disk, input);
      if marker, nonce :| ConfigEffect(mem, disk, input, r, marker, nonce) {
        MarkerPaced(mem.receipts, disk.receipt, marker, nonce, input.now, mem.config.mode == Persistent, false, false, input.save);
      } else if marker, nonce :| TargetEffect(mem, disk, input, r, marker, nonce) {
        MarkerPaced(mem.firmware, disk.firmware, marker, nonce, input.now, true, mem.receipts.blocked, true, input.save);
      } else {
        NoReceiptTimes(r.writes, firmware);
      }
    }
  }

  /** Pacing and blocking. In one process, under any clock, the writes of a receipt kind are at least 30 seconds apart in
      recorded time; after a write that failed there are none. */
  lemma {:induction false} WritesArePaced(env: Env, mem: Memory, disk: Disk, events: seq<Event>, firmware: bool)
    requires MemInv(env, mem) && OneProcess(events)
    ensures var writes := Writes(env, System(Up(mem), disk), events);
      && Spaced(Times(writes, firmware), SlotOf(mem, firmware).lastWrite)
      && (SlotOf(mem, firmware).blocked ==> Times(writes, firmware) == [])
      && EarlierSaved(writes, firmware)
    decreases |events|
  {
    hide InformStep, MemInv, Paced, WritesValid, OnlyBlocked;
    if events != [] {
      var r := InformStep(env, mem, disk, events[0].input);
      var rest := Writes(env, System(Up(r.mem), r.disk), events[1..]);
      InformKeepsInv(env, mem, disk, events[0].input);
      StepPaces(env, mem, disk, events[0].input, firmware);
      WritesArePaced(env, r.mem, r.disk, events[1..], firmware);
      PacedThenSpaced(SlotOf(mem, firmware), SlotOf(r.mem, firmware), r.writes, rest, events[0].input.now, firmware);
    }
  }

  /** Writes of a kind after the first come only after commits that succeeded. */
  ghost predicate EarlierSaved(writes: seq<Write>, firmware: bool) {
    forall i, j :: 0 <= i < j < |writes| && IsKind(writes[i], firmware) && IsKind(writes[j], firmware) ==> writes[i].result == Saved
  }

  lemma PacedThenSpaced(before: Slot, after: Slot, writes: seq<Write>, rest: seq<Write>, now: int, firmware: bool)
    requires Paced(before, after, writes, now, firmware) && |writes| <= 1
    requires Spaced(Times(rest, firmware), after.lastWrite) && (after.blocked ==> Times(rest, firmware) == [])
    requires EarlierSaved(rest, firmware)
    ensures Spaced(Times(writes + rest, firmware), before.lastWrite) && EarlierSaved(writes + rest, firmware)
    ensures before.blocked ==> Times(writes + rest, firmware) == []
  {
    TimesSplit(writes, rest, firmware);
    var all := writes + rest;
    if after.blocked {
      NoTimes(rest, firmware);
    }
    if Times(writes, firmware) == [] {
      NoTimes(writes, firmware);
      assert Times(all, firmware) == Times(rest, firmware);
    } else {
      assert Times(all, firmware)[1..] == Times(rest, firmware);
    }
    forall i, j | 0 <= i < j < |all| && IsKind(all[i], firmware) && IsKind(all[j], firmware)
      ensures all[i].result == Saved
    {
      assert all[j] == rest[j - |writes|];
      if i >= |writes| {
        assert all[i] == rest[i - |writes|];
      }
    }
  }

  lemma TimesSplit(a: seq<Write>, b: seq<Write>, firmware: bool)
    requires |a| <= 1
    ensures Times(a + b, firmware) == Times(a, firmware) + Times(b, firmware)
  {
    if a == [] {
      assert a + b == b;
    } else {
      assert (a + b)[1..] == b && a[1..] == [];
    }
  }

  lemma {:induction false} NoTimes(writes: seq<Write>, firmware: bool)
    requires Times(writes, firmware) == []
    ensures forall i :: 0 <= i < |writes| ==> !IsKind(writes[i], firmware)
  {
    if writes != [] {
      NoTimes(writes[1..], firmware);
    }
  }

  /** So k writes span at least 30(k - 1) seconds. */
  lemma {:induction false} SpacedSpan(times: seq<int>, previous: int)
    requires Spaced(times, previous) && times != []
    ensures times[|times| - 1] - times[0] >= RECEIPT_INTERVAL * (|times| - 1)
  {
    if |times| > 1 {
      SpacedSpan(times[1..], times[0]);
    }
  }
}
