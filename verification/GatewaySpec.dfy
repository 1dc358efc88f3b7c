/** The inform state machine as a function: one controller answer, or one process start, applied to the process
    memory and the files on disk. Everything foreign - the clock, the answer, whether a write lands - is an input. */
module GatewaySpec {
  import opened Basics
  import opened Text
  import opened Hex
  import opened Adoption
  import opened Classify
  import opened Identities
  import opened Receipts
  import opened ReplayWindow

  // The zero time means "never".
  const UNIX_EPOCH := 62_135_596_800 * SECOND
  const RECEIPT_INTERVAL := 30 * SECOND

  /** URL parsing and the keyed digest that names a receipt epoch, both arbitrary. */
  datatype Env = Env(parse: UrlParser, hmac: (seq<Byte>, seq<string>) -> Digest)

  datatype ReceiptMode = Off | MemoryOnly | Persistent

  datatype Config = Config(informURL: string, mode: ReceiptMode, firmwareSync: bool, volatileSync: bool,
                           carrier: string, sourceProfile: string)
  {
    predicate Valid() {
      (firmwareSync ==> mode == Persistent) && (volatileSync ==> mode == Off)
    }
  }

  const STATE_VERSION := 1

  datatype State = State(version: int, identity: Identity, stored: Stored)

  /** State.Validate. */
  ghost predicate ValidState(parse: UrlParser, s: State) {
    var a := s.stored.adoption;
    && s.version == STATE_VERSION && ValidIdentity(s.identity)
    && ValidKey(a.authKey)
    && parse(a.informURL).Some? && AcceptableUrl(parse(a.informURL).value)
    && ValidConfigValue(a.cfgVersion, 128)
    && (a.useGCM ==> a.adopted)
    && (!a.useGCM ==> s.stored.nonces == [])
    && ValidNonceTexts(s.stored.nonces)
  }

  datatype File = Absent | Unreadable | Present(receipt: Receipt)

  datatype Disk = Disk(state: Option<State>, receipt: File, firmware: File)

  /** A write fails cleanly, or fails after the new content was put in place. */
  datatype SaveResult = Saved | Failed | FailedInPlace

  datatype Write = StateWrite(state: State, result: SaveResult)
                 | ConfigWrite(receipt: Receipt, at: int, result: SaveResult)
                 | TargetWrite(receipt: Receipt, at: int, result: SaveResult)

  /** One receipt kind in memory. */
  datatype Slot = Slot(receipt: Receipt, epoch: string, blocked: bool, lastWrite: int)

  datatype Memory = Memory(config: Config, persistent: State, window: Window, lastInform: int,
                           reportedCfg: string, reportedFirmware: string, receipts: Slot, firmware: Slot)

  datatype Reason = NotReady | NoAnswer | BadEpoch | Replay | StorageUnavailable | RateLimited | CommitFailed
                  | BadResponse | ReceiptRejected | TargetRejected | OriginRejected | StateWriteFailed

  datatype Reply = Accepted(outcome: Outcome) | Rejected(reason: Reason)

  datatype Exchange = NoReply | Decoded(nonce: Nonce, body: Body)

  datatype Input = Input(networkCurrent: bool, observationCurrent: bool, reportOk: bool, now: int,
                         exchange: Exchange, save: SaveResult)

  datatype StepResult = StepResult(mem: Memory, disk: Disk, reply: Reply, writes: seq<Write>)

  // ---- Eligibility and epochs -------------------------------------------------------------------

  predicate ReceiptsEligible(env: Env, c: Config, a: Adoption, gcm: bool) {
    c.mode != Off && HasScheme(env.parse, a.informURL, "http") && a.adopted && a.useGCM && gcm && !a.DefaultKey()
  }

  function ConfigContext(c: Config, s: State): seq<string> {
    ["n2u-config-receipt-v1", s.identity.mac, s.identity.serial, s.identity.guid, s.stored.adoption.informURL, "gcm",
     s.stored.adoption.cfgVersion, c.carrier]
  }

  function TargetContext(c: Config, s: State): seq<string> {
    ["n2u-reported-firmware-v1", s.identity.mac, s.identity.serial, s.identity.guid, s.stored.adoption.informURL, "gcm",
     c.carrier, c.sourceProfile]
  }

  predicate EpochShape(epoch: string) {
    epoch == "" || (|epoch| == 64 && IsHex(epoch) && ToLower(epoch) == epoch)
  }

  ghost function DigestText(env: Env, s: State, context: seq<string>): (epoch: string)
    ensures EpochShape(epoch)
  {
    if ValidState(env.parse, s) && s.stored.adoption.adopted && s.stored.adoption.useGCM then
      var digest := env.hmac(Decode(s.stored.adoption.authKey).value, context);
      DecodeEncode(digest);
      Encode(digest)
    else ""
  }

  ghost function ConfigEpoch(env: Env, c: Config, s: State): (epoch: string)
    ensures EpochShape(epoch)
  {
    if ReceiptsEligible(env, c, s.stored.adoption, true) then DigestText(env, s, ConfigContext(c, s)) else ""
  }

  ghost function TargetEpoch(env: Env, c: Config, s: State): (epoch: string)
    ensures EpochShape(epoch)
  {
    if c.firmwareSync && ReceiptsEligible(env, c, s.stored.adoption, true) then DigestText(env, s, TargetContext(c, s)) else ""
  }

  // ---- Accepting a report marker ----------------------------------------------------------------

  datatype SlotResult = SlotDone(slot: Slot, file: File) | SlotRefused(reason: Reason, slot: Slot, file: File)

  ghost predicate ValidMarker(kind: bool, r: Receipt) {
    r.Valid() && (kind ==> ValidVersion(r.marker))
  }

  /** Shared by both kinds of receipt; firmware says which validity the writer demands. */
  ghost function AcceptMarker(slot: Slot, file: File, marker: string, nonce: Nonce, now: int, persist: bool,
                              otherBlocked: bool, firmware: bool, save: SaveResult): SlotResult {
    if slot.blocked || otherBlocked || slot.epoch == "" then SlotRefused(StorageUnavailable, slot, file)
    else if marker == slot.receipt.marker then SlotDone(slot, file)
    else
      var next := NewReceipt(slot.epoch, marker, slot.receipt, nonce);
      if !persist then SlotDone(slot.(receipt := next), file)
      else if slot.lastWrite != 0 && now - slot.lastWrite < RECEIPT_INTERVAL then SlotRefused(RateLimited, slot, file)
      else
        var result := if ValidMarker(firmware, next) then save else Failed;
        var file' := if result == Failed then file else Present(next);
        if result == Saved then SlotDone(slot.(receipt := next, lastWrite := now), file')
        else SlotRefused(CommitFailed, slot.(blocked := true, lastWrite := now), file')
  }

  /** The write that AcceptMarker performs, if any: it happened exactly when the time of the last write was set. */
  ghost function MarkerWrite(slot: Slot, marker: string, nonce: Nonce, now: int, persist: bool,
                             otherBlocked: bool, firmware: bool, save: SaveResult): (writes: seq<Write>)
    ensures |writes| <= 1 && forall i :: 0 <= i < |writes| ==> !writes[i].StateWrite?
  {
    if slot.blocked || otherBlocked || slot.epoch == "" || marker == slot.receipt.marker || !persist ||
       (slot.lastWrite != 0 && now - slot.lastWrite < RECEIPT_INTERVAL) then []
    else
      var next := NewReceipt(slot.epoch, marker, slot.receipt, nonce);
      var result := if ValidMarker(firmware, next) then save else Failed;
      [if firmware then TargetWrite(next, now, result) else ConfigWrite(next, now, result)]
  }

  // ---- One inform exchange ----------------------------------------------------------------------

  /** The report of the next exchange can be built: its clock is plausible and its markers are well formed. */
  predicate Reportable(mem: Memory, now: int) {
    && now >= UNIX_EPOCH && (mem.lastInform == 0 || UNIX_EPOCH <= mem.lastInform <= now)
    && ValidConfigValue(mem.reportedCfg, 128) && (mem.reportedFirmware == "" || ValidVersion(mem.reportedFirmware))
  }

  predicate Ready(mem: Memory, input: Input) {
    input.networkCurrent && input.observationCurrent && input.reportOk && Reportable(mem, input.now)
  }

  predicate Known(mem: Memory, nonce: Nonce) {
    mem.window.Contains(nonce) || mem.receipts.receipt.Contains(nonce) || mem.firmware.receipt.Contains(nonce)
  }

  function Confine(parse: UrlParser, current: Adoption, next: Adoption, out: Outcome, gcm: bool,
                   allowVolatile: bool, only: bool): (Adoption, Outcome, Option<string>) {
    if !current.adopted || HasScheme(parse, current.informURL, "https") then (next, out, None)
    else if !gcm && current.DefaultKey() && !next.DefaultKey() then (next, out, None)
    else
      var upgrade := !gcm && next.useGCM && !current.useGCM && EqualFold(next.authKey, current.authKey);
      var retain := allowVolatile && HasScheme(parse, current.informURL, "http") && gcm && current.useGCM &&
                    !current.DefaultKey() && out.kind == SetParam && only && EqualFold(next.authKey, current.authKey) &&
                    next.informURL == current.informURL && next.useGCM == current.useGCM && next.adopted == current.adopted;
      (if upgrade then current.(useGCM := true) else current,
       Plain(out.kind).(cycleIntents := out.cycleIntents, unsupported := out.unsupported, stateChanged := upgrade),
       if retain then Some(next.cfgVersion) else None)
  }

  ghost function TargetStep(mem: Memory, disk: Disk, input: Input, nonce: Nonce, version: string): StepResult {
    var writes := MarkerWrite(mem.firmware, version, nonce, input.now, true, mem.receipts.blocked, true, input.save);
    match AcceptMarker(mem.firmware, disk.firmware, version, nonce, input.now, true, mem.receipts.blocked, true, input.save)
    case SlotRefused(reason, slot, file) =>
      StepResult(mem.(firmware := slot), disk.(firmware := file), Rejected(reason), writes)
    case SlotDone(slot, file) =>
      StepResult(mem.(firmware := slot, reportedFirmware := if version == mem.firmware.receipt.marker then mem.reportedFirmware else version,
                      window := mem.window.Accept(nonce, false), lastInform := input.now),
                 disk.(firmware := file), Accepted(Plain(ReportedFirmware)), writes)
  }

  ghost function ReceiptStep(mem: Memory, disk: Disk, input: Input, nonce: Nonce,
                             candidate: ConfigReceipt): StepResult {
    var persist := mem.config.mode == Persistent;
    var writes := MarkerWrite(mem.receipts, candidate.cfgVersion, nonce, input.now, persist, false, false, input.save);
    match AcceptMarker(mem.receipts, disk.receipt, candidate.cfgVersion, nonce, input.now, persist, false, false, input.save)
    case SlotRefused(reason, slot, file) =>
      StepResult(mem.(receipts := slot), disk.(receipt := file), Rejected(reason), writes)
    case SlotDone(slot, file) =>
      StepResult(mem.(receipts := slot, reportedCfg := if candidate.cfgVersion == mem.receipts.receipt.marker then mem.reportedCfg else candidate.cfgVersion,
                      window := mem.window.Accept(nonce, false), lastInform := input.now),
                 disk.(receipt := file), Accepted(Plain(SetParam).(unsupported := candidate.unsupported)), writes)
  }

  /** The nonces to store with the next adoption state. */
  ghost function NextStored(mem: Memory, next: Adoption, nonce: Nonce): (s: Stored)
    ensures s.adoption == next
  {
    var current := mem.persistent.stored.adoption;
    var same := EpochOf(next) == EpochOf(current);
    if same && next != current && current.useGCM then
      Stored(next, EncodeNonces(mem.window.Accept(nonce, true).protected))
    else Stored(next, if same then mem.persistent.stored.nonces else [])
  }

  /** Saving a changed state and, only then, publishing it. */
  ghost function ChangeStep(env: Env, mem: Memory, disk: Disk, input: Input, state: State, window: Window,
                            out: Outcome): StepResult {
    var result := if ValidState(env.parse, state) then input.save else Failed;
    var disk' := if result == Failed then disk else disk.(state := Some(state));
    if result != Saved then StepResult(mem, disk', Rejected(StateWriteFailed), [StateWrite(state, result)])
    else
      StepResult(mem.(persistent := state, window := window, lastInform := input.now,
                      reportedCfg := state.stored.adoption.cfgVersion, reportedFirmware := "",
                      receipts := mem.receipts.(receipt := NO_RECEIPT, epoch := ConfigEpoch(env, mem.config, state)),
                      firmware := mem.firmware.(receipt := NO_RECEIPT, epoch := TargetEpoch(env, mem.config, state))),
                 disk', Accepted(out), [StateWrite(state, result)])
  }

  ghost function CommitStep(env: Env, mem: Memory, disk: Disk, input: Input, nonce: Nonce,
                            next: Adoption, out: Outcome, volatile: Option<string>): StepResult {
    var current := mem.persistent.stored.adoption;
    var changed := next != current;
    if next.informURL != current.informURL && !AuthorizeTransition(env.parse, current.informURL, next.informURL) then
      StepResult(mem, disk, Rejected(OriginRejected), [])
    else if EpochOf(current).None? || EpochOf(next).None? then StepResult(mem, disk, Rejected(BadEpoch), [])
    else
      var state := mem.persistent.(stored := NextStored(mem, next, nonce));
      var accepted := if current.useGCM then mem.window.Accept(nonce, changed && EpochOf(next) == EpochOf(current)) else mem.window;
      match Rebase(accepted, state.stored)
      case None => StepResult(mem, disk, Rejected(BadEpoch), [])
      case Some(window) =>
        if !changed then
          StepResult(mem.(persistent := state, window := window, lastInform := input.now,
                          reportedCfg := if volatile.Some? then volatile.value else mem.reportedCfg),
                     disk, Accepted(out), [])
        else ChangeStep(env, mem, disk, input, state, window, out)
  }

  datatype Decision = Decision(next: Adoption, outcome: Outcome, volatile: Option<string>)

  /** The adoption state that an answer asks for, after confinement, or the reason it is refused. */
  ghost function Decide(env: Env, mem: Memory, body: Body): Result<Decision, Reason> {
    var current := mem.persistent.stored.adoption;
    var eligible := ReceiptsEligible(env, mem.config, current, current.useGCM);
    match Apply(env.parse, current, body)
    case None => Err(BadResponse)
    case Some((full, out)) =>
      if eligible && out.kind == SetParam then Err(ReceiptRejected)
      else if eligible && mem.config.firmwareSync && out.kind == Upgrade then Err(TargetRejected)
      else
        var (next, confined, volatile) :=
          Confine(env.parse, current, full, out, current.useGCM, mem.config.volatileSync, HasOnlyCfgVersion(body.response));
        Ok(Decision(next, confined.(interval := 0), volatile))
  }

  ghost function AdoptionStep(env: Env, mem: Memory, disk: Disk, input: Input, nonce: Nonce, body: Body): StepResult {
    match Decide(env, mem, body)
    case Err(reason) => StepResult(mem, disk, Rejected(reason), [])
    case Ok(d) => CommitStep(env, mem, disk, input, nonce, d.next, d.outcome, d.volatile)
  }

  ghost function AnswerStep(env: Env, mem: Memory, disk: Disk, input: Input, nonce: Nonce, body: Body): StepResult {
    var current := mem.persistent.stored.adoption;
    var eligible := ReceiptsEligible(env, mem.config, current, current.useGCM);
    if current.useGCM && Known(mem, nonce) then StepResult(mem, disk, Rejected(Replay), [])
    else if eligible && mem.config.firmwareSync && ClassifyTarget(body).Some? then
      TargetStep(mem, disk, input, nonce, ClassifyTarget(body).value)
    else if eligible && ClassifyReceipt(body).Some? then
      ReceiptStep(mem, disk, input, nonce, ClassifyReceipt(body).value)
    else AdoptionStep(env, mem, disk, input, nonce, body)
  }

  ghost function InformStep(env: Env, mem: Memory, disk: Disk, input: Input): StepResult {
    if !Ready(mem, input) then StepResult(mem, disk, Rejected(NotReady), [])
    else match Rebase(mem.window, mem.persistent.stored)
      case None => StepResult(mem, disk, Rejected(BadEpoch), [])
      case Some(window) =>
        var mem' := mem.(window := window);
        match input.exchange
        case NoReply => StepResult(mem', disk, Rejected(NoAnswer), [])
        case Decoded(nonce, body) => AnswerStep(env, mem', disk, input, nonce, body)
  }

  // ---- Process start ----------------------------------------------------------------------------

  /** early and late stand for every other startup check, before and after the state file is loaded. */
  datatype StartInput = StartInput(config: Config, request: Request, early: bool, late: bool, save: SaveResult,
                                   receiptReadable: bool, firmwareReadable: bool)

  datatype Process = Down | Up(mem: Memory)

  datatype StartResult = StartResult(proc: Process, disk: Disk, writes: seq<Write>)

  /** A new identity starts pending; a stored one must meet the operator's wishes; a pending state on the public key
      follows the configured URL. */
  ghost function StateToLoad(parse: UrlParser, c: Config, request: Request, disk: Disk): Option<State> {
    match disk.state
    case None =>
      var identity := NewIdentity(request);
      if identity.None? then None else Some(State(STATE_VERSION, identity.value, Stored(Pending(c.informURL), [])))
    case Some(s) =>
      if !ValidState(parse, s) || !Meets(s.identity, request) then None
      else
        var a := s.stored.adoption;
        if !a.adopted && a.DefaultKey() && a.informURL != c.informURL
        then Some(s.(stored := s.stored.(adoption := a.(informURL := c.informURL))))
        else Some(s)
  }

  ghost function LoadOrCreate(parse: UrlParser, c: Config, request: Request, disk: Disk,
                              save: SaveResult): (Option<State>, Disk, seq<Write>) {
    match StateToLoad(parse, c, request, disk)
    case None => (None, disk, [])
    case Some(s) =>
      if disk.state == Some(s) then (Some(s), disk, [])
      else if !ValidState(parse, s) then (None, disk, [])
      else
        (if save == Saved then Some(s) else None, if save == Failed then disk else disk.(state := Some(s)), [StateWrite(s, save)])
  }

  /** initializeReceipt and initializeFirmwareReceipt: keep a readable, valid receipt of the same epoch. */
  ghost function LoadSlot(epoch: string, enabled: bool, firmware: bool, file: File, readable: bool): Slot {
    var empty := Slot(NO_RECEIPT, epoch, false, 0);
    if epoch == "" || !enabled || file == Absent then empty
    else if !readable || file == Unreadable || !ValidMarker(firmware, file.receipt) then empty.(blocked := true)
    else if file.receipt.epoch != epoch then empty
    else empty.(receipt := file.receipt)
  }

  ghost function Boot(env: Env, c: Config, s: State, window: Window, disk: Disk, input: StartInput): Memory {
    var receipts := LoadSlot(ConfigEpoch(env, c, s), c.mode == Persistent, false, disk.receipt, input.receiptReadable);
    var firmware := LoadSlot(TargetEpoch(env, c, s), !receipts.blocked, true, disk.firmware, input.firmwareReadable);
    Memory(c, s, window, 0,
           if receipts.receipt == NO_RECEIPT then s.stored.adoption.cfgVersion else receipts.receipt.marker,
           firmware.receipt.marker, receipts, firmware)
  }

  ghost function StartStep(env: Env, disk: Disk, input: StartInput): StartResult {
    if !input.config.Valid() || !input.early then StartResult(Down, disk, [])
    else
      var (loaded, disk', writes) := LoadOrCreate(env.parse, input.config, input.request, disk, input.save);
      if loaded.None? || !loaded.value.stored.adoption.Valid(env.parse) || !input.late then StartResult(Down, disk', writes)
      else match NewWindow(loaded.value.stored)
        case None => StartResult(Down, disk', writes)
        case Some(window) => StartResult(Up(Boot(env, input.config, loaded.value, window, disk', input)), disk', writes)
  }

  // ---- Runs -------------------------------------------------------------------------------------

  datatype Event = Inform(input: Input) | Start(start: StartInput) | Stop

  datatype System = System(proc: Process, disk: Disk)

  ghost function Step(env: Env, sys: System, e: Event): (System, seq<Write>) {
    match e
    case Stop => (sys.(proc := Down), [])
    case Start(input) => var r := StartStep(env, sys.disk, input); (System(r.proc, r.disk), r.writes)
    case Inform(input) =>
      if sys.proc.Down? then (sys, [])
      else var r := InformStep(env, sys.proc.mem, sys.disk, input); (System(Up(r.mem), r.disk), r.writes)
  }

  ghost function Run(env: Env, sys: System, events: seq<Event>): System
    decreases |events|
  {
    if events == [] then sys else Run(env, Step(env, sys, events[0]).0, events[1..])
  }

  /** Every call of a saver during a run, in order. */
  ghost function Writes(env: Env, sys: System, events: seq<Event>): seq<Write>
    decreases |events|
  {
    if events == [] then [] else Step(env, sys, events[0]).1 + Writes(env, Step(env, sys, events[0]).0, events[1..])
  }
}
