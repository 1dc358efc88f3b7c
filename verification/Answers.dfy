/** What one exchange and one start come to, in plain numbers and texts: when an exchange takes place, what an answer
    may do over each kind of transport, when a receipt is taken, and what a fresh process looks like. */
module Answers {
  import opened Basics
  import opened Text
  import opened Letters
  import opened Hex
  import opened Adoption
  import opened Classify
  import opened Identities
  import opened Receipts
  import opened ReplayWindow
  import opened GatewaySpec
  import opened GatewayInvariant
  import opened OriginRuns
  import opened Settings

  predicate PublicKey(a: Adoption) {
    SameLetters(a.authKey, "ba86f2bbe107c7c57eb5f2690775c712")
  }

  predicate OverScheme(parse: UrlParser, a: Adoption, scheme: string) {
    parse(a.informURL).Some? && parse(a.informURL).value.scheme == scheme
  }

  /** Report receipts are only for an adopted GCM session over plain HTTP under a private key. */
  predicate ReportOnly(env: Env, mem: Memory) {
    var a := mem.persistent.stored.adoption;
    mem.config.mode != Off && OverScheme(env.parse, a, "http") && a.adopted && a.useGCM && !PublicKey(a)
  }

  lemma ReportOnlyExactly(env: Env, mem: Memory)
    requires MemInv(env, mem)
    ensures var a := mem.persistent.stored.adoption;
      && (ReceiptsEligible(env, mem.config, a, a.useGCM) <==> ReportOnly(env, mem))
      && (a.DefaultKey() <==> PublicKey(a))
      && (HasScheme(env.parse, a.informURL, "https") <==> OverScheme(env.parse, a, "https"))
      && (HasScheme(env.parse, a.informURL, "http") <==> !OverScheme(env.parse, a, "https"))
  {
    hide ValidState, WindowInv, SlotInv;
    FoldIsLetters(mem.persistent.stored.adoption.authKey, DEFAULT_KEY);
  }

  // ---- What an answer may do ---------------------------------------------------------------------------

  /** Everything, while pending and over HTTPS; over HTTP, everything in the answer that brings a private key. */
  predicate Trusted(parse: UrlParser, a: Adoption, full: Adoption) {
    !a.adopted || OverScheme(parse, a, "https") || (!a.useGCM && PublicKey(a) && !PublicKey(full))
  }

  /** What is left of an answer to an adopted gateway over HTTP: CBC may become GCM under the same key, and nothing is
      restarted, upgraded or moved. A lone version may be kept for reports. */
  ghost predicate OnlyObserved(a: Adoption, volatileSync: bool, r: Response, full: Adoption, out: Outcome,
                               d: Decision) {
    && d.next == (if !a.useGCM && full.useGCM && SameLetters(full.authKey, a.authKey) then a.(useGCM := true) else a)
    && d.outcome == Outcome(out.kind, 0, d.next != a, false, false, "", out.cycleIntents, out.unsupported)
    && d.volatile == (if volatileSync && a.useGCM && !PublicKey(a) && HasOnlyCfgVersion(Some(r))
                      then Some(full.cfgVersion) else None)
  }

  /** How an understood answer is judged. */
  ghost predicate Judged(env: Env, mem: Memory, r: Response, full: Adoption, out: Outcome,
                         judgement: Result<Decision, Reason>) {
    var a := mem.persistent.stored.adoption;
    if ReportOnly(env, mem) && r.kind == "setparam" then judgement == Err(ReceiptRejected)
    else if ReportOnly(env, mem) && mem.config.firmwareSync && r.kind == "upgrade" then judgement == Err(TargetRejected)
    else
      && judgement.Ok?
      && if Trusted(env.parse, a, full) then judgement.value == Decision(full, out.(interval := 0), None)
         else OnlyObserved(a, mem.config.volatileSync, r, full, out, judgement.value)
  }

  /** A version on its own leaves the rest of the state as it was. */
  lemma LoneVersion(parse: UrlParser, a: Adoption, r: Response)
    requires HasOnlyCfgVersion(Some(r)) && Dispatch(parse, a, r).Some? && a.adopted
    ensures var (full, out) := Dispatch(parse, a, r).value; full == a.(cfgVersion := full.cfgVersion) && out.kind == SetParam
  {
    hide HasOnlyCfgVersion, ApplyMgmtText, ValidToken, Ignored;
    assert r.kind == "setparam" by {
      OnlySetParam(r);
    }
    OnlyCfgVersionChangesOnlyThat(parse, a, r);
  }

  lemma OnlySetParam(r: Response)
    requires HasOnlyCfgVersion(Some(r))
    ensures r.kind == "setparam"
  {
  }

  lemma ConfineExactly(parse: UrlParser, a: Adoption, r: Response, volatileSync: bool)
    requires a.Valid(parse) && Dispatch(parse, a, r).Some?
    ensures var (full, out) := Dispatch(parse, a, r).value;
      var (next, confined, volatile) := Confine(parse, a, full, out, a.useGCM, volatileSync, HasOnlyCfgVersion(Some(r)));
      var d := Decision(next, confined.(interval := 0), volatile);
      if Trusted(parse, a, full) then d == Decision(full, out.(interval := 0), None)
      else OnlyObserved(a, volatileSync, r, full, out, d)
  {
    hide Dispatch, HasOnlyCfgVersion, EqualFold, SameLetters, AcceptableUrl;
    var (full, out) := Dispatch(parse, a, r).value;
    FoldIsLetters(a.authKey, DEFAULT_KEY);
    FoldIsLetters(full.authKey, DEFAULT_KEY);
    FoldIsLetters(full.authKey, a.authKey);
    UsableIsValid(parse, a.informURL);
    SameKey(a.authKey);
    if a.adopted && HasOnlyCfgVersion(Some(r)) {
      LoneVersion(parse, a, r);
    }
  }

  lemma SameKey(key: string)
    ensures EqualFold(key, key)
  {
  }

  lemma ApplyIsDispatch(parse: UrlParser, a: Adoption, body: Body)
    requires Apply(parse, a, body).Some?
    ensures body.response.Some? && Apply(parse, a, body) == Dispatch(parse, a, body.response.value) && a.Valid(parse)
  {
    hide Dispatch, ValidToken, Adoption.Valid;
  }

  lemma KindIs(parse: UrlParser, a: Adoption, r: Response)
    requires Dispatch(parse, a, r).Some?
    ensures var out := Dispatch(parse, a, r).value.1;
      (out.kind == SetParam <==> r.kind == "setparam") && (out.kind == Upgrade <==> r.kind == "upgrade")
  {
    hide ApplyMgmtText, ValidToken, Ignored;
  }

  /** An answer that is not understood is refused; every other one is judged by transport, key and kind. */
  lemma DecideExactly(env: Env, mem: Memory, body: Body)
    requires MemInv(env, mem)
    ensures var answer := Apply(env.parse, mem.persistent.stored.adoption, body);
      match answer
      case None => Decide(env, mem, body) == Err(BadResponse)
      case Some((full, out)) => body.response.Some? && Judged(env, mem, body.response.value, full, out, Decide(env, mem, body))
  {
    hide MemInv, Apply, ReportOnly, ReceiptsEligible, HasOnlyCfgVersion, Confine, OnlyObserved, Trusted;
    var a := mem.persistent.stored.adoption;
    if Apply(env.parse, a, body).Some? {
      ReportOnlyExactly(env, mem);
      ApplyIsDispatch(env.parse, a, body);
      KindIs(env.parse, a, body.response.value);
      ConfineExactly(env.parse, a, body.response.value, mem.config.volatileSync);
    }
  }

  // ---- When an exchange takes place --------------------------------------------------------------------

  /** The clock has passed 1970 and not run back since the last exchange; times count from the year 1. */
  predicate ClockFits(mem: Memory, now: int) {
    && now >= 62_135_596_800_000_000_000
    && (mem.lastInform == 0 || 62_135_596_800_000_000_000 <= mem.lastInform <= now)
  }

  lemma ReadyExactly(env: Env, mem: Memory, input: Input)
    requires MemInv(env, mem)
    ensures Ready(mem, input) <==>
      input.networkCurrent && input.observationCurrent && input.reportOk && ClockFits(mem, input.now)
  {
    hide ValidState, WindowInv, ConfigEpoch, TargetEpoch, ValidVersion;
  }

  /** Without a current address, a current observation, a valid report and a clock that fits there is no exchange; the
      report markers themselves are always well formed. An accepted exchange sets the time, no other does. */
  lemma ExchangeClock(env: Env, mem: Memory, disk: Disk, input: Input)
    requires MemInv(env, mem)
    ensures var r := InformStep(env, mem, disk, input);
      && (r.reply == Rejected(NotReady) <==>
            !(input.networkCurrent && input.observationCurrent && input.reportOk && ClockFits(mem, input.now)))
      && (r.reply.Accepted? ==> input.exchange.Decoded? && ClockFits(mem, input.now) && r.mem.lastInform == input.now)
      && (r.reply.Rejected? ==> r.mem.lastInform == mem.lastInform)
  {
    hide InformStep, MemInv, Ready, AcceptMarker, MarkerWrite, Decide, CommitStep, ClassifyTarget, ClassifyReceipt, Known;
    hide ReceiptsEligible, ClockFits;
    ReadyExactly(env, mem, input);
    InformIsAnswer(env, mem, disk, input);
    if Ready(mem, input) && input.exchange.Decoded? {
      var nonce, body := input.exchange.nonce, input.exchange.body;
      if Decide(env, mem, body).Ok? {
        var d := Decide(env, mem, body).value;
        CommitClock(env, mem, disk, input, nonce, d.next, d.outcome, d.volatile);
      }
      MarkersAreReasons(mem, disk, input, nonce, body);
      DecideReasons(env, mem, body);
    }
  }

  lemma DecideReasons(env: Env, mem: Memory, body: Body)
    ensures Decide(env, mem, body).Err? ==> Decide(env, mem, body).error in {BadResponse, ReceiptRejected, TargetRejected}
  {
    hide Apply, ReceiptsEligible, HasOnlyCfgVersion, Confine;
  }

  lemma CommitClock(env: Env, mem: Memory, disk: Disk, input: Input, nonce: Nonce, next: Adoption, out: Outcome,
                    volatile: Option<string>)
    ensures var r := CommitStep(env, mem, disk, input, nonce, next, out, volatile);
      && (r.reply.Accepted? ==> r.mem.lastInform == input.now)
      && (r.reply.Rejected? ==> r.mem.lastInform == mem.lastInform && r.reply.reason != NotReady)
  {
    hide ValidState, NextStored, AuthorizeTransition, EpochOf, Rebase, ConfigEpoch, TargetEpoch;
  }

  lemma MarkersAreReasons(mem: Memory, disk: Disk, input: Input, nonce: Nonce, body: Body)
    ensures ClassifyTarget(body).Some? ==>
      TargetStep(mem, disk, input, nonce, ClassifyTarget(body).value).reply != Rejected(NotReady)
    ensures ClassifyReceipt(body).Some? ==>
      ReceiptStep(mem, disk, input, nonce, ClassifyReceipt(body).value).reply != Rejected(NotReady)
  {
    hide ClassifyTarget, ClassifyReceipt, NewReceipt, MarkerWrite, ValidMarker;
  }

  /** During one process the time of the last accepted exchange never runs back. */
  lemma {:induction false} TimeNeverRunsBack(env: Env, mem: Memory, disk: Disk, events: seq<Event>)
    requires MemInv(env, mem) && forall i :: 0 <= i < |events| ==> events[i].Inform?
    ensures var after := Run(env, System(Up(mem), disk), events); after.proc.Up? && after.proc.mem.lastInform >= mem.lastInform
    decreases |events|
  {
    hide InformStep, MemInv, WriteValid, OnlyBlocked;
    if events != [] {
      var r := InformStep(env, mem, disk, events[0].input);
      InformKeepsInv(env, mem, disk, events[0].input);
      ExchangeClock(env, mem, disk, events[0].input);
      TimeNeverRunsBack(env, r.mem, r.disk, events[1..]);
    }
  }

  // ---- What an accepted exchange leaves ----------------------------------------------------------------

  /** An authenticated answer is a replay exactly when its nonce is in one of the four lists. */
  lemma ReplayExactly(env: Env, mem: Memory, disk: Disk, input: Input)
    requires MemInv(env, mem) && Ready(mem, input) && input.exchange.Decoded?
    ensures InformStep(env, mem, disk, input).reply == Rejected(Replay) <==>
      var nonce := input.exchange.nonce;
      && mem.persistent.stored.adoption.useGCM
      && (nonce in mem.window.recent || nonce in mem.window.protected || Encode(nonce) in mem.receipts.receipt.nonces
          || Encode(nonce) in mem.firmware.receipt.nonces)
  {
    hide InformStep, MemInv, Ready, Decide, AcceptMarker, MarkerWrite, CommitStep, ClassifyTarget, ClassifyReceipt;
    hide ReceiptsEligible;
    InformIsAnswer(env, mem, disk, input);
    var nonce, body := input.exchange.nonce, input.exchange.body;
    DecideReasons(env, mem, body);
    if Decide(env, mem, body).Ok? {
      var d := Decide(env, mem, body).value;
      CommitIsNoReplay(env, mem, disk, input, nonce, d.next, d.outcome, d.volatile);
    }
    MarkersAreNoReplay(mem, disk, input, nonce, body);
  }

  lemma CommitIsNoReplay(env: Env, mem: Memory, disk: Disk, input: Input, nonce: Nonce, next: Adoption, out: Outcome,
                         volatile: Option<string>)
    ensures CommitStep(env, mem, disk, input, nonce, next, out, volatile).reply != Rejected(Replay)
  {
    hide ValidState, NextStored, AuthorizeTransition, EpochOf, Rebase, ConfigEpoch, TargetEpoch;
  }

  lemma MarkersAreNoReplay(mem: Memory, disk: Disk, input: Input, nonce: Nonce, body: Body)
    ensures ClassifyTarget(body).Some? ==>
      TargetStep(mem, disk, input, nonce, ClassifyTarget(body).value).reply != Rejected(Replay)
    ensures ClassifyReceipt(body).Some? ==>
      ReceiptStep(mem, disk, input, nonce, ClassifyReceipt(body).value).reply != Rejected(Replay)
  {
    hide ClassifyTarget, ClassifyReceipt, NewReceipt, MarkerWrite, ValidMarker;
  }

  /** The answer goes to the response transformer: it is no replay and no receipt or firmware target. */
  predicate ForTransformer(env: Env, mem: Memory, input: Input) {
    && input.exchange.Decoded? && !(mem.persistent.stored.adoption.useGCM && Known(mem, input.exchange.nonce))
    && (ReportOnly(env, mem) ==> ClassifyReceipt(input.exchange.body).None?)
    && (ReportOnly(env, mem) && mem.config.firmwareSync ==> ClassifyTarget(input.exchange.body).None?)
  }

  /** What the transformer's decision leaves: nothing but a reason when it is refused, names another server or cannot be
      saved; otherwise the new state in memory and, when it changed, on disk, with the markers re-anchored to it. */
  ghost predicate Published(env: Env, mem: Memory, disk: Disk, input: Input, d: Decision, r: StepResult) {
    var a := mem.persistent.stored.adoption;
    if d.next.informURL != a.informURL && !SameServer(env.parse, a.informURL, d.next.informURL) then
      r == StepResult(mem, disk, Rejected(OriginRejected), [])
    else if d.next == a then
      && r.reply == Accepted(d.outcome) && r.disk == disk && r.writes == [] && r.mem.persistent == mem.persistent
      && r.mem.receipts == mem.receipts && r.mem.firmware == mem.firmware && r.mem.config == mem.config
      && r.mem.reportedCfg == (if d.volatile.Some? then d.volatile.value else mem.reportedCfg)
      && r.mem.reportedFirmware == mem.reportedFirmware
    else
      && |r.writes| == 1 && r.writes[0].StateWrite?
      && var state := r.writes[0].state;
      && state == mem.persistent.(stored := Stored(d.next, state.stored.nonces)) && r.writes[0].result == input.save
      && (!a.useGCM || !d.next.useGCM || !SameLetters(a.authKey, d.next.authKey) ==> state.stored.nonces == [])
      && r.disk == (if input.save == Failed then disk else disk.(state := Some(state)))
      && if input.save != Saved then r.reply == Rejected(StateWriteFailed) && r.mem == mem
         else
           && r.reply == Accepted(d.outcome) && r.mem.persistent == state && r.mem.config == mem.config
           && r.mem.receipts.receipt == r.mem.firmware.receipt == Receipt("", "", [])
           && r.mem.receipts.blocked == mem.receipts.blocked && r.mem.firmware.blocked == mem.firmware.blocked
           && r.mem.reportedCfg == d.next.cfgVersion && r.mem.reportedFirmware == ""
  }

  lemma FreshNonces(env: Env, mem: Memory, next: Adoption, nonce: Nonce)
    requires MemInv(env, mem) && next.Valid(env.parse)
    ensures var a := mem.persistent.stored.adoption;
      !a.useGCM || !next.useGCM || !SameLetters(a.authKey, next.authKey) ==> NextStored(mem, next, nonce).nonces == []
  {
    hide WindowInv, SlotInv, EncodeNonces, Window.Accept, SameLetters, ValidIdentity;
    var a := mem.persistent.stored.adoption;
    FoldIsLetters(a.authKey, next.authKey);
    EqualFoldIsSameBytes(a.authKey, next.authKey);
    ValidKeyHasEpoch(next);
    ValidKeyHasEpoch(a);
  }

  lemma CommitPublishes(env: Env, mem: Memory, disk: Disk, input: Input, nonce: Nonce, d: Decision)
    requires MemInv(env, mem) && d.next.Valid(env.parse)
    ensures Published(env, mem, disk, input, d, CommitStep(env, mem, disk, input, nonce, d.next, d.outcome, d.volatile))
  {
    hide MemInv, ValidState, NextStored, AuthorizeTransition, Rebase, ConfigEpoch, TargetEpoch, SameServer;
    hide Adoption.Valid, SameLetters;
    AuthorizedExactly(env.parse, mem.persistent.stored.adoption.informURL, d.next.informURL);
    FreshNonces(env, mem, d.next, nonce);
    StoredStaysValid(env, mem, d.next, nonce);
    WindowStaysValid(env, mem, d.next, nonce);
    BothHaveEpochs(env, mem, d.next);
  }

  lemma BothHaveEpochs(env: Env, mem: Memory, next: Adoption)
    requires MemInv(env, mem) && next.Valid(env.parse)
    ensures EpochOf(mem.persistent.stored.adoption).Some? && EpochOf(next).Some?
  {
    ValidKeyHasEpoch(next);
    ValidKeyHasEpoch(mem.persistent.stored.adoption);
  }

  /** Every exchange that reaches the transformer: the judgement of its answer is carried out, or nothing happens. */
  lemma AnswerIsPublished(env: Env, mem: Memory, disk: Disk, input: Input)
    requires MemInv(env, mem) && Ready(mem, input) && ForTransformer(env, mem, input)
    ensures var judgement, r := Decide(env, mem, input.exchange.body), InformStep(env, mem, disk, input);
      match judgement
      case Err(reason) => r == StepResult(mem, disk, Rejected(reason), [])
      case Ok(d) => Published(env, mem, disk, input, d, r)
  {
    hide InformStep, MemInv, Ready, Decide, TargetStep, ReceiptStep, CommitStep, ClassifyTarget, ClassifyReceipt, Published;
    hide ReceiptsEligible, ReportOnly, Known;
    InformIsAnswer(env, mem, disk, input);
    ReportOnlyExactly(env, mem);
    if Decide(env, mem, input.exchange.body).Ok? {
      DecideShape(env, mem, input.exchange.body);
      CommitPublishes(env, mem, disk, input, input.exchange.nonce, Decide(env, mem, input.exchange.body).value);
    }
  }

  // ---- Receipts ---------------------------------------------------------------------------------------

  /** Two configuration contexts are the same exactly when device, server, version and carrier are; two firmware contexts
      when device, server, carrier and source profile are; and a context of one kind is never one of the other. */
  lemma ContextsDiffer(c: Config, s: State, d: Config, t: State)
    ensures ConfigContext(c, s) == ConfigContext(d, t) <==>
      && s.identity == t.identity && s.stored.adoption.informURL == t.stored.adoption.informURL
      && s.stored.adoption.cfgVersion == t.stored.adoption.cfgVersion && c.carrier == d.carrier
    ensures TargetContext(c, s) == TargetContext(d, t) <==>
      && s.identity == t.identity && s.stored.adoption.informURL == t.stored.adoption.informURL
      && c.carrier == d.carrier && c.sourceProfile == d.sourceProfile
    ensures ConfigContext(c, s) != TargetContext(d, t)
  {
    var a, b, x, y := ConfigContext(c, s), ConfigContext(d, t), TargetContext(c, s), TargetContext(d, t);
    if a == b {
      assert forall i :: 0 <= i < 8 ==> a[i] == b[i];
    }
    if x == y {
      assert forall i :: 0 <= i < 8 ==> x[i] == y[i];
    }
    FirstsDiffer(a, y);
  }

  lemma FirstsDiffer(a: seq<string>, b: seq<string>)
    requires a != [] && b != [] && a[0] == "n2u-config-receipt-v1" && b[0] == "n2u-reported-firmware-v1"
    ensures a != b
  {
    assert |a[0]| == 21 && |b[0]| == 24;
  }

  /** The epochs of a process: keyed digests of the two contexts in hexadecimal, or nothing. */
  lemma EpochsAre(env: Env, mem: Memory)
    requires MemInv(env, mem)
    ensures var s, c := mem.persistent, mem.config; var a, i := s.stored.adoption, s.identity;
      && (ReportOnly(env, mem) ==>
            && |mem.receipts.epoch| == 64
            && mem.receipts.epoch == Encode(env.hmac(Decode(a.authKey).value,
                ["n2u-config-receipt-v1", i.mac, i.serial, i.guid, a.informURL, "gcm", a.cfgVersion, c.carrier])))
      && (ReportOnly(env, mem) && c.firmwareSync ==>
            && |mem.firmware.epoch| == 64
            && mem.firmware.epoch == Encode(env.hmac(Decode(a.authKey).value,
                ["n2u-reported-firmware-v1", i.mac, i.serial, i.guid, a.informURL, "gcm", c.carrier, c.sourceProfile])))
      && (!ReportOnly(env, mem) ==> mem.receipts.epoch == "")
      && (!ReportOnly(env, mem) || !c.firmwareSync ==> mem.firmware.epoch == "")
  {
    hide ReportOnly, ReceiptsEligible, ValidState, WindowInv, ValidMarker, Adoption.Valid;
    ReportOnlyExactly(env, mem);
    KeyDecodes(env, mem);
  }

  lemma KeyDecodes(env: Env, mem: Memory)
    requires MemInv(env, mem)
    ensures ReportOnly(env, mem) ==> mem.persistent.stored.adoption.adopted && mem.persistent.stored.adoption.useGCM
    ensures ValidState(env.parse, mem.persistent) && Decode(mem.persistent.stored.adoption.authKey).Some?
  {
    hide WindowInv, SlotInv;
  }

  /** Whether a marker may be taken now, and what then holds: it is known already; or it can be kept in memory; or a
      write is due, 30 seconds after the last one, and succeeds. */
  predicate Takes(slot: Slot, marker: string, now: int, persist: bool, otherBlocked: bool, save: SaveResult) {
    && !slot.blocked && !otherBlocked
    && (marker != slot.receipt.marker && persist ==> Due(slot, now) && save == Saved)
  }

  predicate Due(slot: Slot, now: int) {
    slot.lastWrite == 0 || now >= slot.lastWrite + 30_000_000_000
  }

  /** How a marker is taken, or why not. A failed write blocks the kind. */
  ghost predicate Taken(slot: Slot, file: File, marker: string, nonce: Nonce, now: int, persist: bool,
                        otherBlocked: bool,
                        save: SaveResult, after: Slot, file': File, refusal: Option<Reason>) {
    if Takes(slot, marker, now, persist, otherBlocked, save) then
      && refusal.None? && after.receipt.marker == marker && !after.blocked && after.epoch == slot.epoch
      && (marker == slot.receipt.marker ==> after == slot && file' == file)
      && (marker != slot.receipt.marker ==>
            && after.receipt.epoch == slot.epoch && after.receipt.nonces != []
            && after.receipt.nonces[|after.receipt.nonces| - 1] == Encode(nonce)
            && after.lastWrite == (if persist then now else slot.lastWrite)
            && file' == (if persist then Present(after.receipt) else file))
    else if slot.blocked || otherBlocked then refusal == Some(StorageUnavailable) && after == slot && file' == file
    else if !Due(slot, now) then refusal == Some(RateLimited) && after == slot && file' == file
    else
      && refusal == Some(CommitFailed) && after == slot.(blocked := true, lastWrite := now)
      && (save == Failed ==> file' == file)
      && (save == FailedInPlace ==> file'.Present? && file'.receipt.marker == marker && file'.receipt.epoch == slot.epoch)
  }

  lemma MarkerExactly(slot: Slot, file: File, marker: string, nonce: Nonce, now: int, persist: bool, otherBlocked: bool,
                      firmware: bool, save: SaveResult)
    requires slot.epoch != "" && ValidMarker(firmware, NewReceipt(slot.epoch, marker, slot.receipt, nonce))
    ensures var r := AcceptMarker(slot, file, marker, nonce, now, persist, otherBlocked, firmware, save);
      Taken(slot, file, marker, nonce, now, persist, otherBlocked, save, r.slot, r.file,
            if r.SlotDone? then None else Some(r.reason))
  {
    hide ValidMarker;
  }

  /** A receipt for a configuration version. It reports success, asks for nothing, and only the marker changes. */
  lemma ReceiptExactly(env: Env, mem: Memory, disk: Disk, input: Input)
    requires MemInv(env, mem) && Ready(mem, input) && ReportOnly(env, mem)
    requires input.exchange.Decoded? && !Known(mem, input.exchange.nonce) && ClassifyReceipt(input.exchange.body).Some?
    ensures var r, c := InformStep(env, mem, disk, input), ClassifyReceipt(input.exchange.body).value;
      && Taken(mem.receipts, disk.receipt, c.cfgVersion, input.exchange.nonce, input.now, mem.config.mode == Persistent, false,
               input.save, r.mem.receipts, r.disk.receipt, if r.reply.Accepted? then None else Some(r.reply.reason))
      && r.mem.persistent == mem.persistent && r.mem.firmware == mem.firmware && r.mem.config == mem.config
      && r.disk.state == disk.state && r.disk.firmware == disk.firmware
      && (r.reply.Accepted? ==>
            && r.reply.outcome == Outcome(SetParam, 0, false, false, false, "", [], c.unsupported)
            && r.mem.reportedCfg == c.cfgVersion && r.mem.reportedFirmware == mem.reportedFirmware)
  {
    hide InformStep, MemInv, Ready, Decide, CommitStep, ReceiptsEligible, Known, ClassifyReceipt, ClassifyTarget, Taken;
    hide ReportOnly, AcceptMarker, MarkerWrite, SlotInv, Receipt.Contains;
    var nonce, body := input.exchange.nonce, input.exchange.body;
    var c := ClassifyReceipt(body).value;
    ReportOnlyExactly(env, mem);
    InformIsAnswer(env, mem, disk, input);
    NotBoth(body);
    NewNonce(mem, nonce);
    SlotsAreSet(env, mem);
    ReceiptVersion(body);
    NextMarkerIsValid(mem.receipts, c.cfgVersion, nonce, false);
    MarkerExactly(mem.receipts, disk.receipt, c.cfgVersion, nonce, input.now, mem.config.mode == Persistent, false, false,
                  input.save);
    ReportsMarker(env, mem, body);
  }

  lemma NotBoth(body: Body)
    requires ClassifyReceipt(body).Some?
    ensures ClassifyTarget(body).None?
  {
    hide ClassifyText, ValidVersion, Ignored, TimeStamp;
    var fields := body.exact.value;
    assert |"setparam"| == 8 && |"upgrade"| == 7;
    assert Field(fields, "_type") == "setparam";
  }

  lemma ReceiptVersion(body: Body)
    requires ClassifyReceipt(body).Some?
    ensures var v := ClassifyReceipt(body).value.cfgVersion; 0 < |v| <= 128 && forall i :: 0 <= i < |v| ==> ' ' <= v[i] <= '~'
  {
    hide ClassifyText, Ignored, TimeStamp;
    ClassifiedVersionPrintable(Field(body.exact.value, "mgmt_cfg"));
  }

  lemma SlotsAreSet(env: Env, mem: Memory)
    requires MemInv(env, mem) && ReportOnly(env, mem)
    ensures SlotInv(mem.receipts, mem.receipts.epoch, false) && EpochShape(mem.receipts.epoch) && mem.receipts.epoch != ""
    ensures SlotInv(mem.firmware, mem.firmware.epoch, true)
    ensures mem.config.firmwareSync ==> EpochShape(mem.firmware.epoch) && mem.firmware.epoch != ""
  {
    hide ReportOnly, ValidState, WindowInv, ValidMarker, Adoption.Valid, ConfigEpoch, TargetEpoch;
    EpochsAre(env, mem);
  }

  lemma NextMarkerIsValid(slot: Slot, marker: string, nonce: Nonce, firmware: bool)
    requires SlotInv(slot, slot.epoch, firmware) && EpochShape(slot.epoch) && slot.epoch != "" && !slot.receipt.Contains(nonce)
    requires 0 < |marker| <= 128 && forall i :: 0 <= i < |marker| ==> ' ' <= marker[i] <= '~'
    requires firmware ==> ValidVersion(marker)
    ensures ValidMarker(firmware, NewReceipt(slot.epoch, marker, slot.receipt, nonce))
  {
    hide ValidVersion;
    NewReceiptValid(slot.epoch, marker, slot.receipt, nonce);
  }

  lemma NewNonce(mem: Memory, nonce: Nonce)
    requires !Known(mem, nonce)
    ensures !mem.receipts.receipt.Contains(nonce) && !mem.firmware.receipt.Contains(nonce)
  {
  }

  /** A firmware target. It is acknowledged and reported from then on, not installed: nothing is restarted or upgraded. */
  lemma TargetExactly(env: Env, mem: Memory, disk: Disk, input: Input)
    requires MemInv(env, mem) && Ready(mem, input) && ReportOnly(env, mem) && mem.config.firmwareSync
    requires input.exchange.Decoded? && !Known(mem, input.exchange.nonce) && ClassifyTarget(input.exchange.body).Some?
    ensures var r, version := InformStep(env, mem, disk, input), ClassifyTarget(input.exchange.body).value;
      && Taken(mem.firmware, disk.firmware, version, input.exchange.nonce, input.now, true, mem.receipts.blocked,
               input.save, r.mem.firmware, r.disk.firmware, if r.reply.Accepted? then None else Some(r.reply.reason))
      && r.mem.persistent == mem.persistent && r.mem.receipts == mem.receipts && r.mem.config == mem.config
      && r.disk.state == disk.state && r.disk.receipt == disk.receipt
      && (r.reply.Accepted? ==>
            && r.reply.outcome == Outcome(ReportedFirmware, 0, false, false, false, "", [], [])
            && r.mem.reportedFirmware == version && r.mem.reportedCfg == mem.reportedCfg)
  {
    hide InformStep, MemInv, Ready, Decide, CommitStep, ReceiptsEligible, Known, ClassifyReceipt, ClassifyTarget, Taken;
    hide ReportOnly, AcceptMarker, MarkerWrite, ValidVersion, SlotInv, Receipt.Contains;
    var nonce, version := input.exchange.nonce, ClassifyTarget(input.exchange.body).value;
    ReportOnlyExactly(env, mem);
    InformIsAnswer(env, mem, disk, input);
    NewNonce(mem, nonce);
    SlotsAreSet(env, mem);
    VersionPrintable(version);
    NextMarkerIsValid(mem.firmware, version, nonce, true);
    MarkerExactly(mem.firmware, disk.firmware, version, nonce, input.now, true, mem.receipts.blocked, true, input.save);
    ReportsTarget(env, mem);
  }

  lemma ReportsTarget(env: Env, mem: Memory)
    requires MemInv(env, mem)
    ensures mem.reportedFirmware == mem.firmware.receipt.marker
  {
    hide ValidState, WindowInv, SlotInv;
  }

  /** Outside the volatile exception the process reports the version of its receipt. */
  lemma ReportsMarker(env: Env, mem: Memory, body: Body)
    requires MemInv(env, mem) && ReportOnly(env, mem) && ClassifyReceipt(body).Some?
    ensures var version := ClassifyReceipt(body).value.cfgVersion;
      mem.receipts.receipt.marker == version ==> mem.reportedCfg == version
  {
    hide ValidState, WindowInv, ValidMarker, ClassifyText, Adoption.Valid, PrintableValue;
    ClassifiedVersionPrintable(Field(body.exact.value, "mgmt_cfg"));
  }

  // ---- Starts -----------------------------------------------------------------------------------------

  /** The state of a device that was never adopted. */
  function Fresh(identity: Identity, url: string): State {
    State(1, identity, Stored(Adoption("ba86f2bbe107c7c57eb5f2690775c712", url, "0", false, false), []))
  }

  /** The stored state, and a pending one on the public key under the configured URL. */
  function Loaded(s: State, url: string): State {
    var a := s.stored.adoption;
    if !a.adopted && PublicKey(a) then s.(stored := s.stored.(adoption := a.(informURL := url))) else s
  }

  /** What is to be loaded, if the wishes and the stored state allow it. */
  ghost predicate Loads(env: Env, disk: Disk, input: StartInput, s: State) {
    match disk.state
    case None => NewIdentity(input.request).Some? && s == Fresh(NewIdentity(input.request).value, input.config.informURL)
    case Some(stored) =>
      ValidState(env.parse, stored) && Meets(stored.identity, input.request) && s == Loaded(stored, input.config.informURL)
  }

  lemma LoadsExactly(env: Env, disk: Disk, input: StartInput, s: State)
    ensures StateToLoad(env.parse, input.config, input.request, disk) == Some(s) <==> Loads(env, disk, input, s)
    ensures Loads(env, disk, input, s) && disk.state == Some(s) ==> ValidState(env.parse, s)
  {
    hide NewIdentity, Meets, ValidState, EqualFold, SameLetters;
    if disk.state.Some? {
      FoldIsLetters(disk.state.value.stored.adoption.authKey, DEFAULT_KEY);
    }
  }

  /** A start comes up exactly when its configuration is consistent, its other checks pass, there is a state to load that
      is valid with a usable URL, and that state is on disk already or is saved. It then holds that state, reports its
      version and no firmware, and has not exchanged anything yet - apart from what receipt files add. */
  lemma StartExactly(env: Env, disk: Disk, input: StartInput, s: State)
    ensures var r, c := StartStep(env, disk, input), input.config;
      var up := && (c.firmwareSync ==> c.mode == Persistent) && (c.volatileSync ==> c.mode == Off) && input.early && input.late
                && Loads(env, disk, input, s) && ValidState(env.parse, s) && Usable(env.parse, s.stored.adoption.informURL)
                && (s.stored.adoption.adopted || PublicKey(s.stored.adoption))
                && (disk.state == Some(s) || input.save == Saved);
      && ((r.proc.Up? && r.proc.mem.persistent == s) <==> up)
      && (up ==>
            && r.disk == disk.(state := Some(s)) && r.proc.mem.config == c && r.proc.mem.lastInform == 0
            && r.writes == (if disk.state == Some(s) then [] else [StateWrite(s, Saved)])
            && (r.proc.mem.receipts.receipt == NO_RECEIPT ==> r.proc.mem.reportedCfg == s.stored.adoption.cfgVersion)
            && r.proc.mem.reportedFirmware == r.proc.mem.firmware.receipt.marker
            && r.proc.mem.receipts.lastWrite == r.proc.mem.firmware.lastWrite == 0
            && r.proc.mem.window.recent == [])
  {
    hide ValidState, Loads, PublicKey, ConfigEpoch, TargetEpoch, LoadSlot, Meets, NewIdentity, Usable, StateToLoad;
    LoadsExactly(env, disk, input, s);
    StateIsUsable(env, s);
    SlotsStartIdle(env, disk, input);
    if StateToLoad(env.parse, input.config, input.request, disk).Some? {
      StateIsUsable(env, StateToLoad(env.parse, input.config, input.request, disk).value);
    }
  }

  lemma StateIsUsable(env: Env, s: State)
    ensures ValidState(env.parse, s) ==>
      && (s.stored.adoption.Valid(env.parse) <==>
            Usable(env.parse, s.stored.adoption.informURL) && (s.stored.adoption.adopted || PublicKey(s.stored.adoption)))
      && NewWindow(s.stored).Some? && NewWindow(s.stored).value.recent == []
  {
    hide ValidIdentity, ValidNonceTexts, SameLetters, EqualFold;
    var a := s.stored.adoption;
    FoldIsLetters(a.authKey, DEFAULT_KEY);
    UsableIsValid(env.parse, a.informURL);
    if ValidKey(a.authKey) {
      ValidKeyHasEpoch(a);
    }
  }

  lemma SlotsStartIdle(env: Env, disk: Disk, input: StartInput)
    ensures forall epoch, enabled, firmware, file, readable :: LoadSlot(epoch, enabled, firmware, file, readable).lastWrite == 0
  {
  }

  // ---- The stored state -------------------------------------------------------------------------------

  /** Up to 128 nonces of 32 hexadecimal digits, pairwise different whatever their letter case. */
  ghost predicate NonceList(texts: seq<string>) {
    && |texts| <= 128 && (forall i :: 0 <= i < |texts| ==> KeyText(texts[i]))
    && forall i, j :: 0 <= i < j < |texts| ==> !SameLetters(texts[i], texts[j])
  }

  lemma NoncesExactly(texts: seq<string>)
    ensures ValidNonceTexts(texts) <==> NonceList(texts)
  {
    hide EqualFold, SameLetters, Decode;
    KeysAreNonces(texts);
    if forall i :: 0 <= i < |texts| ==> KeyText(texts[i]) {
      forall i, j | 0 <= i < j < |texts|
        ensures SameLetters(texts[i], texts[j]) <==> DecodeNonce(texts[i]) == DecodeNonce(texts[j])
      {
        FoldIsLetters(texts[i], texts[j]);
        EqualFoldIsSameBytes(texts[i], texts[j]);
      }
      assert forall i :: 0 <= i < |texts| ==> DecodeNonces(texts)[i] == DecodeNonce(texts[i]);
    }
  }

  lemma KeysAreNonces(texts: seq<string>)
    ensures (forall t :: t in texts ==> IsNonceText(t)) <==> (forall i :: 0 <= i < |texts| ==> KeyText(texts[i]))
    ensures forall t :: KeyText(t) ==> IsNonceText(t)
  {
    assert forall t: string :: KeyText(t) <==> IsNonceText(t);
  }

  /** Which stored states are accepted. */
  lemma StatesExactly(parse: UrlParser, s: State)
    ensures ValidState(parse, s) <==>
      var a, i := s.stored.adoption, s.identity;
      && s.version == 1
      && ParseMac(i.mac).Some? && ParseMac(i.mac).value[0] % 2 == 0 && ShortText(i.serial) && ValidUuid(i.guid)
      && KeyText(a.authKey) && ShortText(a.cfgVersion) && (a.useGCM ==> a.adopted)
      && parse(a.informURL).Some?
      && (var u := parse(a.informURL).value; u.scheme in {"http", "https"} && u.host != "" && u.plain && u.path == "/inform")
      && (!a.useGCM ==> s.stored.nonces == []) && NonceList(s.stored.nonces)
  {
    hide ParseMac, ValidUuid, ValidNonceTexts, NonceList;
    NoncesExactly(s.stored.nonces);
  }

  /** Which receipt files are accepted: printable markers, an epoch of 64 small hexadecimal digits, and 1 to 128 different
      nonces of 32 of them; a firmware marker is a version. */
  lemma ReceiptFilesExactly(r: Receipt, firmware: bool)
    ensures ValidMarker(firmware, r) <==>
      && 1 <= |r.marker| <= 128 && (forall i :: 0 <= i < |r.marker| ==> 32 <= r.marker[i] as int <= 126)
      && SmallHex(r.epoch, 64) && 1 <= |r.nonces| <= 128
      && (forall i :: 0 <= i < |r.nonces| ==> SmallHex(r.nonces[i], 32))
      && (forall i, j :: 0 <= i < j < |r.nonces| ==> r.nonces[i] != r.nonces[j])
      && (firmware ==> ValidVersion(r.marker))
  {
    hide SmallHex, ValidVersion, IsHex, ToLower;
    SmallHexIs(r.epoch, 64);
    forall i | 0 <= i < |r.nonces|
      ensures SmallHex(r.nonces[i], 32) <==> IsNonceText(r.nonces[i]) && ToLower(r.nonces[i]) == r.nonces[i]
    {
      SmallHexIs(r.nonces[i], 32);
    }
  }

  predicate SmallHex(s: string, size: nat) {
    |s| == size && forall i :: 0 <= i < |s| ==> '0' <= s[i] <= '9' || 'a' <= s[i] <= 'f'
  }

  lemma SmallHexIs(s: string, size: nat)
    requires size % 2 == 0
    ensures SmallHex(s, size) <==> |s| == size && IsHex(s) && ToLower(s) == s
  {
    if |s| == size && IsHex(s) && ToLower(s) == s {
      forall i | 0 <= i < |s|
        ensures '0' <= s[i] <= '9' || 'a' <= s[i] <= 'f'
      {
        assert ToLower(s)[i] == LowerChar(s[i]);
      }
    }
  }
}
