/** The running gateway: the fields that the source updates in place, the files it shares with later processes, and the
    methods that carry out one inform exchange and one start. Each method is proved against GatewaySpec. */
module Gateway {
  import opened Basics
  import opened Text
  import opened Hex
  import opened Adoption
  import opened Classify
  import opened Identities
  import opened Receipts
  import opened ReplayWindow
  import opened GatewaySpec

  /** State.Validate: the scan of the stored nonces keeps the decoded ones it has seen. */
  method ValidateState(parse: UrlParser, s: State) returns (ok: bool)
    ensures ok <==> ValidState(parse, s)
  {
    var a, nonces := s.stored.adoption, s.stored.nonces;
    if s.version != STATE_VERSION || !ValidIdentity(s.identity) {
      return false;
    }
    if !ValidKey(a.authKey) || parse(a.informURL).None? || !AcceptableUrl(parse(a.informURL).value) ||
       !ValidConfigValue(a.cfgVersion, 128) {
      return false;
    }
    if (!a.adopted && a.useGCM) || |nonces| > MAX_NONCES || (!a.useGCM && |nonces| != 0) {
      return false;
    }
    var seen: set<Nonce> := {};
    ghost var decoded: seq<Nonce> := [];
    for i := 0 to |nonces|
      invariant |decoded| == i && Distinct(decoded)
      invariant forall n :: n in seen <==> n in decoded
      invariant forall j :: 0 <= j < i ==> IsNonceText(nonces[j]) && decoded[j] == DecodeNonce(nonces[j])
    {
      if |nonces[i]| != 32 || Decode(nonces[i]).None? {
        assert nonces[i] in nonces && !IsNonceText(nonces[i]);
        return false;
      }
      var nonce: Nonce := Decode(nonces[i]).value;
      if nonce in seen {
        ghost var j :| 0 <= j < i && decoded[j] == nonce;
        RepeatedNonce(nonces, j, i);
        return false;
      }
      decoded := decoded + [nonce];
      seen := seen + {nonce};
    }
    assert DecodeNonces(nonces) == decoded;
    return true;
  }

  /** The private files. Each save validates, then writes all or nothing unless it fails after the rename. */
  class Storage {
    var state: Option<State>
    var receipt: File
    var firmware: File
    ghost var log: seq<Write>

    function View(): Disk
      reads this
    {
      Disk(state, receipt, firmware)
    }

    constructor (disk: Disk)
      ensures View() == disk && log == []
    {
      state, receipt, firmware, log := disk.state, disk.receipt, disk.firmware, [];
    }

    method SaveState(parse: UrlParser, s: State, fate: SaveResult) returns (ok: bool)
      modifies this
      ensures var result := if ValidState(parse, s) then fate else Failed;
        && ok == (result == Saved) && log == old(log) + [StateWrite(s, result)]
        && View() == if result == Failed then old(View()) else old(View()).(state := Some(s))
    {
      var valid := ValidateState(parse, s);
      var result := if valid then fate else Failed;
      if result != Failed {
        state := Some(s);
      }
      log := log + [StateWrite(s, result)];
      return result == Saved;
    }

    method SaveReceipt(r: Receipt, now: int, fate: SaveResult) returns (ok: bool)
      modifies this
      ensures var result := if ValidMarker(false, r) then fate else Failed;
        && ok == (result == Saved) && log == old(log) + [ConfigWrite(r, now, result)]
        && View() == if result == Failed then old(View()) else old(View()).(receipt := Present(r))
    {
      var valid := r.Validate();
      var result := if valid then fate else Failed;
      if result != Failed {
        receipt := Present(r);
      }
      log := log + [ConfigWrite(r, now, result)];
      return result == Saved;
    }

    method SaveFirmwareReceipt(r: Receipt, now: int, fate: SaveResult) returns (ok: bool)
      modifies this
      ensures var result := if ValidMarker(true, r) then fate else Failed;
        && ok == (result == Saved) && log == old(log) + [TargetWrite(r, now, result)]
        && View() == if result == Failed then old(View()) else old(View()).(firmware := Present(r))
    {
      var valid := r.Validate();
      var result := if valid && ValidVersion(r.marker) then fate else Failed;
      if result != Failed {
        firmware := Present(r);
      }
      log := log + [TargetWrite(r, now, result)];
      return result == Saved;
    }
  }

  method EpochText(env: Env, s: State, context: seq<string>) returns (epoch: string)
    ensures epoch == DigestText(env, s, context)
  {
    var valid := ValidateState(env.parse, s);
    if !valid || !s.stored.adoption.adopted || !s.stored.adoption.useGCM {
      return "";
    }
    return Encode(env.hmac(Decode(s.stored.adoption.authKey).value, context));
  }

  /** Overwrites next and returns the confined outcome and the version to report, if any. */
  method ConfineAdoptedPlainHTTPResponse(parse: UrlParser, current: Adoption, next: AdoptionState, outcome: Outcome,
                                         gcm: bool,
                                         allowVolatile: bool, only: bool)
      returns (confined: Outcome, volatile: Option<string>)
    modifies next
    ensures (next.Value(), confined, volatile) == Confine(parse, current, old(next.Value()), outcome, gcm, allowVolatile, only)
  {
    if !current.adopted {
      return outcome, None;
    }
    if HasScheme(parse, current.informURL, "https") {
      return outcome, None;
    }
    if !gcm && EqualFold(current.authKey, DEFAULT_KEY) && !EqualFold(next.authKey, DEFAULT_KEY) {
      return outcome, None;
    }
    var upgradeToGCM := !gcm && next.useAESGCM && !current.useGCM && EqualFold(next.authKey, current.authKey);
    var volatileCfgVersion := next.cfgVersion;
    var retain := allowVolatile && HasScheme(parse, current.informURL, "http") && gcm && current.useGCM &&
                  !EqualFold(current.authKey, DEFAULT_KEY) && outcome.kind == SetParam && only &&
                  EqualFold(next.authKey, current.authKey) && next.informURL == current.informURL &&
                  next.useAESGCM == current.useGCM && next.adopted == current.adopted;
    next.Assign(current);
    confined := Plain(outcome.kind).(cycleIntents := outcome.cycleIntents, unsupported := outcome.unsupported);
    if upgradeToGCM {
      next.useAESGCM := true;
      confined := confined.(stateChanged := true);
    }
    volatile := if retain then Some(volatileCfgVersion) else None;
  }

  class Gateway {
    const env: Env
    const configuration: Config
    const storage: Storage
    var persistent: State
    var reportedCfgVersion: string
    var reportedFirmwareVersion: string
    var lastInform: int
    var gcmReplay: GcmReplayWindow
    ghost var window: Window // what gcmReplay holds
    var receipt: Receipt
    var receiptEpoch: string
    var receiptBlocked: bool
    var receiptLastWrite: int
    var firmwareReceipt: Receipt
    var firmwareEpoch: string
    var firmwareBlocked: bool
    var firmwareLastWrite: int

    /** Only the replay window is an object of its own. */
    ghost predicate Valid()
      reads this`gcmReplay, this`window, gcmReplay, gcmReplay.Repr
    {
      this !in gcmReplay.Repr && storage !in gcmReplay.Repr && gcmReplay.Valid() && gcmReplay.View() == window
    }

    ghost function View(): Memory
      reads this
    {
      Memory(configuration, persistent, window, lastInform, reportedCfgVersion, reportedFirmwareVersion,
             Slot(receipt, receiptEpoch, receiptBlocked, receiptLastWrite),
             Slot(firmwareReceipt, firmwareEpoch, firmwareBlocked, firmwareLastWrite))
    }

    /** The assembled gateway before its receipts are initialised. */
    constructor (env: Env, configuration: Config, storage: Storage, persistent: State, replay: GcmReplayWindow)
      requires replay.Valid() && storage !in replay.Repr
      ensures this.env == env && this.configuration == configuration && this.storage == storage
      ensures Valid()
      ensures View() == Memory(configuration, persistent, replay.View(), 0, persistent.stored.adoption.cfgVersion, "",
                               Slot(NO_RECEIPT, "", false, 0), Slot(NO_RECEIPT, "", false, 0))
    {
      this.env, this.configuration, this.storage := env, configuration, storage;
      this.persistent := persistent;
      reportedCfgVersion, reportedFirmwareVersion, lastInform := persistent.stored.adoption.cfgVersion, "", 0;
      gcmReplay, window := replay, replay.View();
      receipt, receiptEpoch, receiptBlocked, receiptLastWrite := NO_RECEIPT, "", false, 0;
      firmwareReceipt, firmwareEpoch, firmwareBlocked, firmwareLastWrite := NO_RECEIPT, "", false, 0;
    }

    method ResetReceiptContext()
      modifies this`receipt, this`receiptEpoch
      ensures receipt == NO_RECEIPT && receiptEpoch == ConfigEpoch(env, configuration, persistent)
    {
      receipt, receiptEpoch := NO_RECEIPT, "";
      if ReceiptsEligible(env, configuration, persistent.stored.adoption, true) {
        receiptEpoch := EpochText(env, persistent, ConfigContext(configuration, persistent));
      }
    }

    method ResetFirmwareContext()
      modifies this`firmwareReceipt, this`firmwareEpoch
      ensures firmwareReceipt == NO_RECEIPT && firmwareEpoch == TargetEpoch(env, configuration, persistent)
    {
      firmwareReceipt, firmwareEpoch := NO_RECEIPT, "";
      if !configuration.firmwareSync || !ReceiptsEligible(env, configuration, persistent.stored.adoption, true) {
        return;
      }
      firmwareEpoch := EpochText(env, persistent, TargetContext(configuration, persistent));
    }

    method AcceptConfigReceipt(candidate: ConfigReceipt, nonce: Nonce, now: int,
                               fate: SaveResult) returns (refused: Option<Reason>)
      modifies this`receipt, this`receiptBlocked, this`receiptLastWrite, this`reportedCfgVersion, storage
      ensures var mem, disk, persist := old(View()), old(storage.View()), configuration.mode == Persistent;
        var r := AcceptMarker(mem.receipts, disk.receipt, candidate.cfgVersion, nonce, now, persist, false, false, fate);
        && refused == (if r.SlotRefused? then Some(r.reason) else None)
        && storage.View() == disk.(receipt := r.file)
        && storage.log == old(storage.log) + MarkerWrite(mem.receipts, candidate.cfgVersion, nonce, now, persist, false, false, fate)
        && View() == mem.(receipts := r.slot,
                          reportedCfg := if r.SlotRefused? || candidate.cfgVersion == mem.receipts.receipt.marker
                                         then mem.reportedCfg else candidate.cfgVersion)
    {
      hide GcmReplayWindow.Valid, GcmReplayWindow.View, NewReceipt, ValidMarker;
      if receiptBlocked || receiptEpoch == "" {
        return Some(StorageUnavailable);
      }
      if candidate.cfgVersion == receipt.marker {
        return None;
      }
      var next := NewReceipt(receiptEpoch, candidate.cfgVersion, receipt, nonce);
      if configuration.mode == Persistent {
        if receiptLastWrite != 0 && now - receiptLastWrite < RECEIPT_INTERVAL {
          return Some(RateLimited);
        }
        receiptLastWrite := now;
        var ok := storage.SaveReceipt(next, now, fate);
        if !ok {
          receiptBlocked := true;
          return Some(CommitFailed);
        }
      }
      receipt := next;
      reportedCfgVersion := next.marker;
      return None;
    }

    method AcceptFirmwareTarget(version: string, nonce: Nonce, now: int,
                                fate: SaveResult) returns (refused: Option<Reason>)
      modifies this`firmwareReceipt, this`firmwareBlocked, this`firmwareLastWrite, this`reportedFirmwareVersion, storage
      ensures var mem, disk := old(View()), old(storage.View());
        var r := AcceptMarker(mem.firmware, disk.firmware, version, nonce, now, true, mem.receipts.blocked, true, fate);
        && refused == (if r.SlotRefused? then Some(r.reason) else None)
        && storage.View() == disk.(firmware := r.file)
        && storage.log == old(storage.log) + MarkerWrite(mem.firmware, version, nonce, now, true, mem.receipts.blocked, true, fate)
        && View() == mem.(firmware := r.slot,
                          reportedFirmware := if r.SlotRefused? || version == mem.firmware.receipt.marker
                                              then mem.reportedFirmware else version)
    {
      hide GcmReplayWindow.Valid, GcmReplayWindow.View, NewReceipt, ValidMarker;
      if firmwareBlocked || receiptBlocked || firmwareEpoch == "" {
        return Some(StorageUnavailable);
      }
      if version == firmwareReceipt.marker {
        return None;
      }
      if firmwareLastWrite != 0 && now - firmwareLastWrite < RECEIPT_INTERVAL {
        return Some(RateLimited);
      }
      var next := NewReceipt(firmwareEpoch, version, firmwareReceipt, nonce);
      firmwareLastWrite := now;
      var ok := storage.SaveFirmwareReceipt(next, now, fate);
      if !ok {
        firmwareBlocked := true;
        return Some(CommitFailed);
      }
      firmwareReceipt := next;
      reportedFirmwareVersion := next.marker;
      return None;
    }

    /** The replay window and the stored nonces that go with the next adoption state; nothing is changed yet. */
    method PrepareReplay(next: Adoption, nonce: Nonce) returns (replay: Option<GcmReplayWindow>, stored: Stored)
      requires Valid() && EpochOf(persistent.stored.adoption).Some? && EpochOf(next).Some?
      ensures stored == NextStored(View(), next, nonce)
      ensures var current, mem := persistent.stored.adoption, View();
        var protect := next != current && EpochOf(next) == EpochOf(current);
        var accepted := if current.useGCM then mem.window.Accept(nonce, protect) else mem.window;
        && (replay.Some? <==> Rebase(accepted, stored).Some?)
        && (replay.Some? ==> this !in replay.value.Repr && storage !in replay.value.Repr)
        && (replay.Some? ==> replay.value.Valid() && replay.value.View() == Rebase(accepted, stored).value)
    {
      var current := persistent.stored.adoption;
      var currentEpoch, nextEpoch := EpochOf(current), EpochOf(next);
      var nonces := [];
      if nextEpoch == currentEpoch {
        nonces := persistent.stored.nonces;
      }
      var changed := next != current;
      var nextReplay := gcmReplay;
      if current.useGCM {
        nextReplay := nextReplay.WithAccepted(nonce, changed && nextEpoch == currentEpoch);
      }
      if changed && current.useGCM && nextEpoch == currentEpoch {
        nonces := nextReplay.EncodedProtected();
      }
      stored := Stored(next, nonces);
      replay := Rebased(nextReplay, stored);
    }

    /** Makes an accepted state, its replay window and the markers to report visible. */
    method Publish(state: State, replay: GcmReplayWindow, cfgVersion: string, firmwareVersion: string, now: int)
      requires replay.Valid() && this !in replay.Repr && storage !in replay.Repr
      modifies this`persistent, this`lastInform, this`reportedCfgVersion, this`reportedFirmwareVersion, this`gcmReplay, this`window
      ensures Valid()
      ensures View() == old(View()).(persistent := state, window := replay.View(), lastInform := now,
                                     reportedCfg := cfgVersion, reportedFirmware := firmwareVersion)
    {
      hide GcmReplayWindow.Valid, GcmReplayWindow.View;
      ghost var view := replay.View();
      persistent, lastInform := state, now;
      reportedCfgVersion, reportedFirmwareVersion := cfgVersion, firmwareVersion;
      gcmReplay, window := replay, view;
      assert replay.Valid() && replay.View() == view;
      assert Valid();
    }

    /** After a change both receipt contexts start over. */
    method ResetContexts()
      modifies this`receipt, this`receiptEpoch, this`firmwareReceipt, this`firmwareEpoch
      ensures var mem := old(View());
        View() == mem.(receipts := mem.receipts.(receipt := NO_RECEIPT, epoch := ConfigEpoch(env, configuration, persistent)),
                       firmware := mem.firmware.(receipt := NO_RECEIPT, epoch := TargetEpoch(env, configuration, persistent)))
    {
      hide ConfigEpoch, TargetEpoch, GcmReplayWindow.Valid, GcmReplayWindow.View;
      ResetReceiptContext();
      ResetFirmwareContext();
    }

    /** Saves a changed state, and only then publishes it in memory. */
    method CommitChange(state: State, replay: GcmReplayWindow, outcome: Outcome, input: Input) returns (reply: Reply)
      requires Valid() && replay.Valid() && this !in replay.Repr && storage !in replay.Repr
      modifies this, storage
      ensures Valid()
      ensures var r := ChangeStep(env, old(View()), old(storage.View()), input, state, old(replay.View()), outcome);
        && View() == r.mem && storage.View() == r.disk && reply == r.reply && storage.log == old(storage.log) + r.writes
    {
      hide ValidState, ConfigEpoch, TargetEpoch, GcmReplayWindow.Valid, GcmReplayWindow.View;
      ghost var view := replay.View();
      var ok := storage.SaveState(env.parse, state, input.save);
      assert replay.Valid() && replay.View() == view;
      if !ok {
        return Rejected(StateWriteFailed);
      }
      Publish(state, replay, state.stored.adoption.cfgVersion, "", input.now);
      ResetContexts();
      return Accepted(outcome);
    }

    /** Authorizes the origin, saves a changed state, and only then publishes it in memory. */
    method CommitAdoption(next: Adoption, outcome: Outcome, volatile: Option<string>, nonce: Nonce,
                          input: Input) returns (reply: Reply)
      requires Valid()
      modifies this, storage
      ensures Valid()
      ensures var r := CommitStep(env, old(View()), old(storage.View()), input, nonce, next, outcome, volatile);
        && View() == r.mem && storage.View() == r.disk && reply == r.reply && storage.log == old(storage.log) + r.writes
    {
      hide ValidState, ConfigEpoch, TargetEpoch, EpochOf, Rebase, NextStored, AuthorizeTransition, Window.Accept;
      hide GcmReplayWindow.Valid, GcmReplayWindow.View;
      var current := persistent.stored.adoption;
      if next.informURL != current.informURL && !AuthorizeTransition(env.parse, current.informURL, next.informURL) {
        return Rejected(OriginRejected);
      }
      if EpochOf(current).None? || EpochOf(next).None? {
        return Rejected(BadEpoch);
      }
      var replay, stored := PrepareReplay(next, nonce);
      if replay.None? {
        return Rejected(BadEpoch);
      }
      var nextPersistent := persistent.(stored := stored);
      var changed := next != current;
      if changed {
        reply := CommitChange(nextPersistent, replay.value, outcome, input);
        return;
      } else {
        var reported := if volatile.Some? then volatile.value else reportedCfgVersion;
        Publish(nextPersistent, replay.value, reported, reportedFirmwareVersion, input.now);
      }
      return Accepted(outcome);
    }

    /** After a report-only answer only the recent nonces and the time of the exchange change. */
    method AcceptNonce(nonce: Nonce, now: int)
      requires Valid()
      modifies this`gcmReplay, this`window, this`lastInform
      ensures Valid()
      ensures View() == old(View()).(window := old(View()).window.Accept(nonce, false), lastInform := now)
    {
      hide GcmReplayWindow.Valid, GcmReplayWindow.View, Window.Accept;
      var next := gcmReplay.WithAccepted(nonce, false);
      ghost var view := next.View();
      lastInform := now;
      gcmReplay, window := next, view;
      assert next.Valid() && next.View() == view;
    }

    /** A recognised firmware target is recorded, never installed. */
    method TakeTarget(nonce: Nonce, version: string, input: Input) returns (reply: Reply)
      requires Valid()
      modifies this, storage
      ensures Valid()
      ensures var r := TargetStep(old(View()), old(storage.View()), input, nonce, version);
        && View() == r.mem && storage.View() == r.disk && reply == r.reply && storage.log == old(storage.log) + r.writes
    {
      hide AcceptMarker, MarkerWrite, GcmReplayWindow.Valid, GcmReplayWindow.View;
      var refused := AcceptFirmwareTarget(version, nonce, input.now, input.save);
      if refused.Some? {
        return Rejected(refused.value);
      }
      AcceptNonce(nonce, input.now);
      return Accepted(Plain(ReportedFirmware));
    }

    method TakeReceipt(nonce: Nonce, candidate: ConfigReceipt, input: Input) returns (reply: Reply)
      requires Valid()
      modifies this, storage
      ensures Valid()
      ensures var r := ReceiptStep(old(View()), old(storage.View()), input, nonce, candidate);
        && View() == r.mem && storage.View() == r.disk && reply == r.reply && storage.log == old(storage.log) + r.writes
    {
      hide AcceptMarker, MarkerWrite, GcmReplayWindow.Valid, GcmReplayWindow.View;
      var refused := AcceptConfigReceipt(candidate, nonce, input.now, input.save);
      if refused.Some? {
        return Rejected(refused.value);
      }
      AcceptNonce(nonce, input.now);
      return Accepted(Plain(SetParam).(unsupported := candidate.unsupported));
    }

    /** The general transformer, confined before it is committed. */
    method ApplyAdoption(nonce: Nonce, body: Body, input: Input) returns (reply: Reply)
      requires Valid()
      modifies this, storage
      ensures Valid()
      ensures var r := AdoptionStep(env, old(View()), old(storage.View()), input, nonce, body);
        && View() == r.mem && storage.View() == r.disk && reply == r.reply && storage.log == old(storage.log) + r.writes
    {
      hide GcmReplayWindow.Valid, GcmReplayWindow.View, ReceiptsEligible, Apply, Confine, CommitStep, HasOnlyCfgVersion;
      var current := persistent.stored.adoption;
      var receiptEligible := ReceiptsEligible(env, configuration, current, current.useGCM);
      var next := new AdoptionState(current);
      var applied := next.ApplyControllerResponse(env.parse, body);
      if applied.None? {
        return Rejected(BadResponse);
      }
      var outcome := applied.value;
      if receiptEligible && outcome.kind == SetParam {
        return Rejected(ReceiptRejected);
      }
      if receiptEligible && configuration.firmwareSync && outcome.kind == Upgrade {
        return Rejected(TargetRejected);
      }
      var only := SetParamHasOnlyCfgVersion(body.response);
      var confined, volatile :=
        ConfineAdoptedPlainHTTPResponse(env.parse, current, next, outcome, current.useGCM, configuration.volatileSync, only);
      confined := confined.(interval := 0);
      reply := CommitAdoption(next.Value(), confined, volatile, nonce, input);
    }

    method ApplyAnswer(nonce: Nonce, body: Body, input: Input) returns (reply: Reply)
      requires Valid()
      modifies this, storage
      ensures Valid()
      ensures var r := AnswerStep(env, old(View()), old(storage.View()), input, nonce, body);
        && View() == r.mem && storage.View() == r.disk && reply == r.reply && storage.log == old(storage.log) + r.writes
    {
      hide GcmReplayWindow.Valid, GcmReplayWindow.View, ReceiptsEligible, TargetStep, ReceiptStep, AdoptionStep;
      hide ClassifyTarget, ClassifyReceipt;
      if persistent.stored.adoption.useGCM {
        var inWindow := gcmReplay.Contains(nonce);
        if inWindow || receipt.Contains(nonce) || firmwareReceipt.Contains(nonce) {
          return Rejected(Replay);
        }
      }
      var receiptEligible := ReceiptsEligible(env, configuration, persistent.stored.adoption, persistent.stored.adoption.useGCM);
      if receiptEligible && configuration.firmwareSync {
        var target := ClassifyTarget(body);
        if target.Some? {
          reply := TakeTarget(nonce, target.value, input);
          return;
        }
      }
      if receiptEligible {
        var candidate := ClassifyConfigReceipt(body);
        if candidate.Some? {
          reply := TakeReceipt(nonce, candidate.value, input);
          return;
        }
      }
      reply := ApplyAdoption(nonce, body, input);
    }

    /** One complete exchange. The new memory, the new files, the reply and the saver calls are those of InformStep. */
    method InformOnce(input: Input) returns (reply: Reply)
      requires Valid()
      modifies this, storage
      ensures Valid()
      ensures var r := InformStep(env, old(View()), old(storage.View()), input);
        && View() == r.mem && storage.View() == r.disk && reply == r.reply && storage.log == old(storage.log) + r.writes
    {
      hide GcmReplayWindow.Valid, GcmReplayWindow.View, AnswerStep, Rebase, ValidConfigValue, ValidVersion;
      if !Ready(Memory(configuration, persistent, Window(gcmReplay.epoch, [], []), lastInform, reportedCfgVersion,
                       reportedFirmwareVersion, Slot(receipt, "", false, 0), Slot(firmwareReceipt, "", false, 0)), input) {
        return Rejected(NotReady);
      }
      var synced := Rebased(gcmReplay, persistent.stored);
      if synced.None? {
        return Rejected(BadEpoch);
      }
      gcmReplay, window := synced.value, synced.value.View();
      match input.exchange
      case NoReply => return Rejected(NoAnswer);
      case Decoded(nonce, body) => reply := ApplyAnswer(nonce, body, input);
    }

    method InitializeReceipt(readable: bool)
      requires receiptBlocked == false && receiptLastWrite == 0
      requires reportedCfgVersion == persistent.stored.adoption.cfgVersion
      modifies this`receipt, this`receiptEpoch, this`receiptBlocked, this`reportedCfgVersion
      ensures var slot := LoadSlot(ConfigEpoch(env, configuration, persistent), configuration.mode == Persistent, false, storage.receipt, readable);
        View() == old(View()).(receipts := slot,
          reportedCfg := if slot.receipt == NO_RECEIPT then persistent.stored.adoption.cfgVersion else slot.receipt.marker)
    {
      hide ConfigEpoch, GcmReplayWindow.Valid, GcmReplayWindow.View;
      ResetReceiptContext();
      if receiptEpoch == "" || configuration.mode != Persistent || storage.receipt == Absent {
        return;
      }
      if !readable || storage.receipt == Unreadable {
        receiptBlocked := true;
        return;
      }
      var loaded := storage.receipt.receipt;
      var valid := loaded.Validate();
      if !valid {
        receiptBlocked := true;
        return;
      }
      if loaded.epoch != receiptEpoch {
        return;
      }
      receipt := loaded;
      reportedCfgVersion := loaded.marker;
    }

    method InitializeFirmwareReceipt(readable: bool)
      requires firmwareBlocked == false && firmwareLastWrite == 0 && reportedFirmwareVersion == ""
      modifies this`firmwareReceipt, this`firmwareEpoch, this`firmwareBlocked, this`reportedFirmwareVersion
      ensures var slot := LoadSlot(TargetEpoch(env, configuration, persistent), !receiptBlocked, true, storage.firmware, readable);
        View() == old(View()).(firmware := slot, reportedFirmware := slot.receipt.marker)
    {
      hide TargetEpoch, GcmReplayWindow.Valid, GcmReplayWindow.View;
      ResetFirmwareContext();
      if firmwareEpoch == "" || receiptBlocked || storage.firmware == Absent {
        return;
      }
      if !readable || storage.firmware == Unreadable {
        firmwareBlocked := true;
        return;
      }
      var loaded := storage.firmware.receipt;
      var valid := loaded.Validate();
      if !valid || !ValidVersion(loaded.marker) {
        firmwareBlocked := true;
        return;
      }
      if loaded.epoch != firmwareEpoch {
        return;
      }
      firmwareReceipt := loaded;
      reportedFirmwareVersion := loaded.marker;
    }
  }

  /** The requested MAC and serial, or random ones, and a random UUID. */
  method CreateIdentity(request: Request) returns (identity: Option<Identity>)
    ensures identity == NewIdentity(request)
  {
    var mac := request.mac;
    if mac == "" {
      if request.macBytes.None? {
        return None;
      }
      mac := MacText(LocalMac(request.macBytes.value));
    } else {
      mac := NormalizeMac(mac);
    }
    var serial := request.serial;
    if serial == "" {
      serial := SerialOf(mac);
    }
    if request.guidBytes.None? {
      return None;
    }
    return Some(Identity(mac, serial, UuidText(request.guidBytes.value)));
  }

  method LoadOrCreateState(env: Env, c: Config, request: Request, storage: Storage,
                           fate: SaveResult) returns (s: Option<State>)
    modifies storage
    ensures var (loaded, disk, writes) := LoadOrCreate(env.parse, c, request, old(storage.View()), fate);
      s == loaded && storage.View() == disk && storage.log == old(storage.log) + writes
  {
    hide ValidState, NewIdentity, Pending, NormalizeMac, EqualFold;
    var wanted: State;
    if storage.state.Some? {
      var current := storage.state.value;
      var valid := ValidateState(env.parse, current);
      if !valid {
        return None;
      }
      if request.mac != "" && !EqualFold(NormalizeMac(request.mac), current.identity.mac) {
        return None;
      }
      if request.serial != "" && request.serial != current.identity.serial {
        return None;
      }
      var a := current.stored.adoption;
      if a.adopted || !EqualFold(a.authKey, DEFAULT_KEY) || a.informURL == c.informURL {
        return Some(current);
      }
      wanted := current.(stored := current.stored.(adoption := a.(informURL := c.informURL)));
    } else {
      var identity := CreateIdentity(request);
      if identity.None? {
        return None;
      }
      wanted := State(STATE_VERSION, identity.value, Stored(Pending(c.informURL), []));
    }
    var valid := ValidateState(env.parse, wanted);
    if !valid {
      return None;
    }
    var ok := storage.SaveState(env.parse, wanted, fate);
    return if ok then Some(wanted) else None;
  }

  method Assemble(env: Env, storage: Storage, state: State, window: GcmReplayWindow, input: StartInput)
      returns (g: Gateway)
    requires window.Valid() && storage !in window.Repr
    ensures fresh(g) && g.Valid() && g.storage == storage && g.env == env
    ensures g.View() == Boot(env, input.config, state, window.View(), storage.View(), input)
  {
    hide LoadSlot, ConfigEpoch, TargetEpoch, GcmReplayWindow.Valid, GcmReplayWindow.View;
    g := new Gateway(env, input.config, storage, state, window);
    g.InitializeReceipt(input.receiptReadable);
    g.InitializeFirmwareReceipt(input.firmwareReadable);
    assert g.Valid();
  }

  /** The state-related part of starting a process on the given files. */
  method New(env: Env, storage: Storage, input: StartInput) returns (g: Option<Gateway>)
    modifies storage
    ensures var r := StartStep(env, old(storage.View()), input);
      && storage.View() == r.disk && storage.log == old(storage.log) + r.writes && (g.Some? <==> r.proc.Up?)
      && (g.Some? ==> fresh(g.value) && g.value.Valid() && g.value.storage == storage && g.value.env == env && g.value.View() == r.proc.mem)
  {
    hide LoadOrCreate, Boot, NewWindow, Adoption.Valid;
    if !input.config.Valid() || !input.early {
      return None;
    }
    var loaded := LoadOrCreateState(env, input.config, input.request, storage, input.save);
    if loaded.None? || !loaded.value.stored.adoption.Valid(env.parse) || !input.late {
      return None;
    }
    var window := NewGcmReplayWindow(loaded.value.stored);
    if window.None? {
      return None;
    }
    var gateway := Assemble(env, storage, loaded.value, window.value, input);
    return Some(gateway);
  }
}
