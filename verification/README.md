# Verified model of the NUT to UniFi UPS gateway

The gateway speaks for a UPS that is monitored by NUT and presents it to a UniFi controller as a managed power device.
This project models its hardest parts in Dafny and proves what they promise over every input and every run.

- **The inform state machine and its durable memory.** `GatewaySpec` describes one exchange with the controller - or one
  process start - as a function of the process memory, the private files, the clock, the answer and the fate of each
  write. `Gateway` is the same machine as a class that updates its fields step by step, proved against that
  description. `ReplayRuns`, `ReceiptRuns`, `HttpRuns` and `RestartRuns` prove what holds over any interleaving of answers, write
  failures, stops and starts: replayed changes stay rejected, at most three changes of the adoption are accepted over plain HTTP
  and then none, and a restart reports what was reported before. `OriginRuns` proves that no answer moves the gateway to another
  server, `Settings`, `Markers` and `Answers` say in plain texts and numbers which answers, receipts and states are accepted and
  what each of them does. `GatewayInvariant` carries the invariants; `ReplayWindow`, `Receipts`, `Adoption`, `Identities` and `Classify` hold the parts.
- **From NUT variables to the outlet table.** `OutletModel` and `OutletState` build dense relay groups from opaque
  identifiers; `PowerReport` projects them and re-checks them with an independent validator. The main theorem joins the
  three stages: no set of NUT variables can make the validator refuse the projection. `PowerTexts` follows every text from its
  variable to the report.
- **The network agent.** `LeaseOwner` logs every action on the kernel and the handoff file, `DhcpClient` is one pass of the
  DHCP loop, `LeaseRuns` and `RefreshRuns` hold the theorems over whole runs, and `NetAgent` has the objects and loops
  themselves. `Reactions` says in plain numbers what the client does about each thing that can happen to it. `Ipv4` and `Dhcp`
  are the packet formats with their checksum arithmetic, `NetConfig` the handoff record, and `DhcpWire` gives all of them byte by
  byte.
- **Wire codecs.** `Discovery` (type-length-value announcements), `Codec` (the TNBU envelope with its padding and nonce
  counter) and `NutWire` (the NUT tokenizer and quoting on UTF-8 text). `DiscoveryWire`, `CodecWire` and `NutText` say exactly
  which bytes each of them writes and accepts, in the numbers of the protocol.

Code that the source writes as loops over changing variables or as methods on a mutable object is a method here, proved
against a function; what the source promises is then proved about that function. Everything foreign - clocks, random
bytes, packets, controller answers, whether a write or a kernel call succeeds, fails, or fails after taking effect - is
an input, so every theorem holds for all of it.

`dafny verify dfyconfig.toml` checks the whole project.

## Where the code and its promises part

Seven properties hold only under a condition. Each is stated exactly, with the inputs on which it fails.

- The receipt classifier joins CRLF into one line end before it counts lines, the general transformer counts both
  characters. So a report-only answer that the first accepts is refused by the second exactly when its text has 256 or
  more line-end characters (`Classify.ClassifiedTextApplies`, `Classify.CRLFTextIsRefused`).
- The accepted firmware version survives a restart exactly when the configuration receipt file is not damaged. A process that
  starts in CBC never looks at that file; when it is then switched to GCM and told a firmware version, it reports and stores
  the version, but the next start finds the configuration receipts damaged, blocks both kinds and reports no firmware version
  (`RestartRuns.RestartReports`, `RestartRuns.StartFromDurable`, `RestartRuns.DamagedFileLosesFirmware`). The nonces of the
  firmware receipt share its fate (`ReceiptRuns.RestartRemembersTarget`).
- An address is configured without a probe when the process was frozen for longer than its lifetime: the kernel has dropped
  the address, but the heartbeat after the thaw adds it again, and another host may have taken it meanwhile. This happens
  exactly when a refresh is handled no earlier than the end of the lifetime that it prolongs (`RefreshRuns.RunIsDisciplined`,
  `RefreshRuns.FrozenAgentReclaims`); a process that wakes up every second is in time (`RefreshRuns.NextBeatIsInTime`).
- When the heartbeat inside an installation reads the clock less than a second before or after the end of the new lease, it
  withdraws the address, yet the loop goes on to the bound phase; the client then stays there without a lease and never
  sends again (`LeaseRuns.PassOutcome`, `LeaseRuns.SlowRenewalLosesLease`, `LeaseRuns.BoundWithoutLeaseIsStuck`). The margin
  check of five seconds rules this out whenever the installation takes at most four.
- When the lease ended a second or more before that heartbeat, the conversion of the negative remainder to an unsigned
  32-bit number gives an enormous lifetime, and authorization and address outlive the lease (`LeaseOwner.SecondsWithinLease`,
  `LeaseRuns.PassOutcome`, `LeaseRuns.LateRenewalOutlivesLease`). The next pass's expiry check withdraws both
  (`LeaseRuns.ExpiryEndsEverything`); they stay as granted only if the process ends or hangs before it.
- The kernel counts an address lifetime from when it handles the request, the gateway's authorization counts from when the
  clock was read. So the address ends with the lease exactly when the kernel is quick enough
  (`LeaseRuns.LifetimeWithinLease`, `LeaseRuns.SlowKernelOutlivesLease`); in general it ends no later than the latency of that
  call after the lease (`LeaseRuns.RunStaysHealthy`).
- A formatted NUT argument is read back exactly when it is not empty, is valid UTF-8 and has no line break or zero byte;
  the quoting function itself does not refuse the others (`NutWire.ArgumentRoundTrip`).

## Model

| member | source | states |
|---|---|---|
| ReplayRuns.ReplayIsRejected | internal/gateway/gateway.go:483-496 | after a committed GCM change, over any interleaving of answers, write failures, stops and starts inside one key and mode, a response with the same nonce changes nothing and is refused as a replay until 128 later changes have reached the state file; noops and receipts do not count |
| ReplayRuns.RunTracks | internal/gateway/gateway.go:569-610 | memory and disk both keep the nonce over every such run, aged by at most the number of changes that reached the disk |
| ReplayRuns.StepTracks | internal/gateway/gateway.go:581-604 | the same for one answer, start or stop, whether its write succeeds, fails or fails in place |
| ReplayRuns.CommittedIsTracked | internal/gateway/gateway.go:581-597 | a committed change leaves its nonce as the youngest entry both in memory and on disk |
| ReplayRuns.TrustedChangeIsCommitted | internal/gateway/gateway.go:563-618 | over HTTPS a new configuration version under a fresh nonce is committed when the save succeeds, so the replay theorem speaks of real runs |
| ReplayRuns.RecentIsLast | internal/gateway/gateway.go:181-214 | over every run of one process in one epoch the recent list is exactly the last 128 nonces it accepted, in order, each of them new when it came |
| ReplayRuns.StepWindow | internal/gateway/gateway.go:524-610 | an accepted exchange pushes its nonce, which was new; a rejected one leaves the whole window alone |
| ReplayRuns.InformStates | internal/gateway/gateway.go:563-610 | an exchange leaves both stored states alone, or puts the one proposed state on disk and possibly in memory |
| HttpRuns.AtMostThreeChanges | internal/gateway/gateway.go:912-964 | from a gateway that was never started, over plain-HTTP origins, at most three accepted answers change the adoption in any run, restarts included, and the origin stays plain HTTP; at most three changes plus one for every write that failed in place land on disk |
| HttpRuns.LandedAnswers | internal/gateway/gateway.go:598-610 | over any run the adoption changes that reach the state file are exactly the accepted ones and those whose write failed after the new content was in place |
| HttpRuns.ChangesAreBounded | internal/gateway/gateway.go:912-964 | changes so far plus the rank still left never exceed the initial rank, from any HTTP state |
| HttpRuns.ProposalLowersRank | internal/unifi/inform/adoption.go:122-197 | every state that an answer can ask for over HTTP keeps the scheme and has strictly lower rank: pending, public key, controller key, GCM |
| HttpRuns.InformOverHttp | internal/gateway/gateway.go:563-610 | one exchange over HTTP keeps the system invariant and lowers the rank whenever it changes the adoption |
| HttpRuns.StartOverHttp | internal/state/state.go:99-111 | a start never raises the rank, and an adopted stored state is loaded unchanged |
| HttpRuns.FrozenForever | internal/gateway/gateway.go:912-964 | adopted GCM over HTTP never changes again, on disk or in any later process |
| RestartRuns.ReportedMarkers | internal/gateway/receipt.go:36-55 | with the volatile exception off, at the end of every run the reported configuration version is the accepted receipt's if there is one, else the adoption's, and the firmware version is the firmware receipt's |
| RestartRuns.RestartReports | internal/gateway/firmware.go:35-54 | from any successful start in persistent mode, over any answers and write failures: once a configuration receipt is held, a restart with the same configuration reports what the old process reported, or the version of a commit that was reported as failed, and nothing else; once a firmware receipt is held the same is true of the firmware version if and only if the configuration receipt file is not damaged, and otherwise the restart reports none |
| RestartRuns.RunStaysDurable | internal/gateway/receipt.go:63-100 | over every run of one persistent-mode process the stored state is its own while receipts are eligible, and the receipt files hold the receipts in memory or receipts whose write failed in place |
| RestartRuns.EligibleIsFrozen | internal/gateway/receipt.go:17-20 | while receipts are eligible no answer touches the stored adoption state |
| RestartRuns.StartFromDurable | internal/gateway/receipt.go:36-55 | the restart itself: the configuration receipt on file is always found again, the firmware receipt if and only if the configuration receipt file is not damaged; a damaged one blocks both kinds |
| RestartRuns.StartIsDurable | internal/gateway/receipt.go:36-55 | every start in persistent mode, from any disk, satisfies the premises of the run theorem |
| RestartRuns.DamagedFileLosesFirmware | internal/gateway/firmware.go:35-39 | a run that loses the firmware version: a start in CBC that does not look at a damaged receipt file, a switch to GCM, an accepted firmware target, a restart |
| RestartRuns.IneligibleStep | internal/gateway/gateway.go:598-618 | while receipts are not eligible an answer writes none, none is held, and a state that makes them eligible is on disk when it is in memory |
| RestartRuns.WritesArePaced | internal/gateway/receipt.go:69-94 | under any clock the writes of one receipt kind in one process are at least 30 seconds apart in recorded time, and after a failed one there are none |
| RestartRuns.StepPaces | internal/gateway/firmware.go:67-81 | one exchange: no write and unchanged bookkeeping, or one write at its own time that respects the interval and blocks its kind exactly when it fails |
| RestartRuns.SpacedSpan | internal/gateway/receipt.go:69-94 | k writes span at least 30(k-1) seconds |
| GatewayInvariant.RunKeepsInv | internal/state/state.go:155-202 | over every run from any disk the memory stays valid and no saver is ever handed a value that its own validation - version, identity, adoption and nonces - refuses |
| Identities.NewIdentityIsValid | internal/state/state.go:125-142 | a created identity passes the validation of the state exactly when what the operator asked for is valid, and the next start with the same wishes accepts it |
| Identities.MacTextParses | internal/state/state.go:301-307 | the canonical text of a hardware address parses back to it |
| GatewayInvariant.InformKeepsInv | internal/gateway/gateway.go:421-618 | every exchange keeps the invariant; a rejected answer leaves adoption, window, receipts and both markers as they were, except that a failed receipt commit blocks its kind |
| GatewayInvariant.StartEstablishesInv | internal/gateway/gateway.go:237-390 | a start from any disk, damaged files included, fails or establishes the invariant |
| GatewayInvariant.StoredStaysValid | internal/gateway/gateway.go:578-597 | the state handed to the saver passes the state validation of its package |
| GatewayInvariant.WindowStaysValid | internal/gateway/gateway.go:579-610 | the next window is valid and its protected list decodes the nonces to be stored |
| GatewayInvariant.DecideShape | internal/gateway/gateway.go:912-964 | whatever the answer, the state to commit is valid, and over HTTP it is the current one, its GCM upgrade, or a first controller key |
| GatewayInvariant.ConfineShape | internal/gateway/gateway.go:912-964 | what confinement can let through: everything over HTTPS or before adoption, otherwise nothing, a GCM upgrade, or leaving the public key |
| GatewayInvariant.AcceptMarkerKeeps | internal/gateway/receipt.go:63-100 | accepting a marker keeps the slot invariant; a refusal changes nothing unless the commit failed |
| GatewayInvariant.CommitKeepsInv | internal/gateway/gateway.go:563-618 | the commit step keeps the invariant and rejects without a trace |
| OriginRuns.AuthorizedExactly | internal/gateway/controller.go:157-203 | a move is authorized if and only if both URLs are usable, their schemes agree, their host names agree up to ASCII letter case, and their ports agree, an absent port meaning 80 or 443 by scheme |
| OriginRuns.ForeignServerIsRefused | internal/gateway/gateway.go:563-567 | an answer that asks for any other server is refused and changes nothing, in memory or on disk |
| OriginRuns.OriginNeverMoves | internal/gateway/gateway.go:563-610 | over every run whose starts are configured for one server - any answers, any write failures - scheme, host name and port of the inform URL in memory and on disk stay those of that server |
| Settings.SettingsTakeEffect | internal/unifi/inform/adoption.go:251-307 | a management text is accepted if and only if it has at most 64 KiB, fewer than 256 line ends, only blank lines and well-formed settings, each known one with a usable value, and none twice; then every setting it gives takes its value - the key as the same bytes in small letters, GCM switched on by six words and left alone by six others - and everything else stays |
| Settings.EntriesAre | internal/unifi/inform/adoption.go:263-305 | the same over the parsed lines: settings taken in one by one have the effect of each read off on its own |
| Settings.WrittenTextTakesEffect | internal/unifi/inform/adoption.go:251-307 | settings written one to a line, with any blanks around name and value, are accepted and take effect |
| Settings.WordMeans | internal/unifi/inform/adoption.go:309-318 | a value switches on or off exactly when it spells one of twelve words in any letter case |
| Settings.AnswerIsApplied | internal/unifi/inform/adoption.go:122-197 | a whole answer is accepted if and only if its size is 1 to 262144, it decodes and its type is understood; state and report - kind, interval, changes, restart, upgrade version, relay rows, ignored settings - are given type by type, a reset returning to the public key |
| Settings.IgnoredExactly | internal/unifi/inform/adoption.go:199-249 | an ignored setting is reported by its fixed name exactly when one of the first 512 lines of the first 64 KiB asks for it |
| Answers.DecideExactly | internal/gateway/gateway.go:528-562 | an answer that is not understood, and in a report-only session every setparam and, with firmware sync, every upgrade, is refused; any other has its full effect while pending, over HTTPS and when it brings a first private key, and otherwise at most switches CBC to GCM under the same key and restarts, upgrades or moves nothing; a lone version is kept for reports when that is enabled; the interval is dropped |
| Answers.ExchangeClock | internal/gateway/gateway.go:421-447 | an exchange takes place if and only if address, observation and report are current and the clock is past 1970 and not before the last exchange; only an accepted one sets the time |
| Answers.TimeNeverRunsBack | internal/gateway/gateway.go:604-610 | over every run of one process the time of the last accepted exchange never runs back |
| Answers.ReplayExactly | internal/gateway/gateway.go:483-496 | an answer is refused as a replay if and only if the session is GCM and its nonce is in the recent or protected list or in one of the two receipts |
| Answers.AnswerIsPublished | internal/gateway/gateway.go:563-618 | every exchange that is no replay, receipt or target carries out its judgement: nothing when refused, when another server is named or when saving fails; otherwise the new state in memory and on disk, receipts emptied, markers re-anchored, and no nonces left of another key or mode |
| Answers.ContextsDiffer | internal/state/receipt.go:41-58 | two receipt contexts of a kind are equal if and only if device, server, carrier and - by kind - version or source profile are, and contexts of different kinds never are |
| Answers.EpochsAre | internal/gateway/receipt.go:17-34 | the epochs in memory are the keyed digests of exactly these contexts in hexadecimal, or empty when receipts are not eligible |
| Answers.MarkerExactly | internal/gateway/receipt.go:63-100 | a marker is taken if and only if its kind is not blocked and it is known, or kept in memory, or written at least 30 seconds after the last write with success; what then holds, and the reason and the blocking otherwise |
| Answers.ReceiptExactly | internal/gateway/gateway.go:516-527 | a configuration receipt changes only that marker, reports its version from then on and asks for nothing |
| Answers.TargetExactly | internal/gateway/gateway.go:500-515 | a firmware target changes only that marker, is reported from then on, and restarts or upgrades nothing |
| Answers.StartExactly | internal/state/state.go:55-153 | a start comes up if and only if the configuration is consistent, the other checks pass, and there is a valid state with a usable URL that is on disk or gets saved: the stored one, a pending one moved to the configured URL, or a fresh one on the public key with version 0; it then holds exactly that |
| Answers.StatesExactly | internal/state/state.go:155-202 | which stored states are valid, field by field, with at most 128 nonces that differ in more than letter case |
| Answers.ReceiptFilesExactly | internal/state/receipt.go:82-106 | which receipts are valid: printable marker, 64-digit epoch, 1 to 128 different 32-digit nonces, and a version as firmware marker |
| Identities.DrawnIdentity | internal/state/state.go:292-318 | an identity for which nothing was asked: a locally administered address of the drawn bytes, its twelve capital digits as serial, and a version 4 UUID of the drawn bytes |
| Markers.ReceiptsExactly | internal/unifi/inform/receipt.go:24-132 | an answer is taken for a receipt of a version if and only if it is a setparam of at most six known fields whose text holds that version and otherwise only harmless settings, and whose other fields say nothing more |
| Markers.TextExactly | internal/unifi/inform/receipt.go:65-112 | the text of a receipt: printable, at most 256 lines, a version, GCM on as true, six inert settings, none twice |
| Markers.TargetsExactly | internal/unifi/inform/firmware.go:18-91 | an answer is taken for a firmware target if and only if it is an upgrade of at most six known fields with a version and well-formed companions |
| Markers.VersionExactly | internal/unifi/firmware/version.go:12-34 | a firmware version is three or four numbers below 2^32, written in decimal with dots between them |
| Gateway.Gateway.InformOnce | internal/gateway/gateway.go:421-618 | the field-updating method: new memory, files, reply and saver calls are exactly those of the specified step |
| Gateway.Gateway.CommitAdoption | internal/gateway/gateway.go:563-618 | authorizes the origin, saves a changed state and only then publishes it |
| Gateway.Gateway.ApplyAdoption | internal/gateway/gateway.go:528-562 | transforms, refuses report-only kinds, confines and commits as specified |
| Gateway.Gateway.PrepareReplay | internal/gateway/gateway.go:569-597 | computes the next window and stored nonces without changing the current window |
| Gateway.Gateway.AcceptConfigReceipt | internal/gateway/receipt.go:63-100 | memory, file, blocking, pacing and the reported version after a configuration receipt, case by case |
| Gateway.Gateway.AcceptFirmwareTarget | internal/gateway/firmware.go:62-88 | the same for a firmware target |
| Gateway.Gateway.InitializeReceipt | internal/gateway/receipt.go:36-55 | keeps a readable, valid receipt of the same epoch, blocks on a damaged one, ignores another epoch |
| Gateway.Gateway.InitializeFirmwareReceipt | internal/gateway/firmware.go:35-54 | the same for firmware, and only while configuration receipts are not blocked |
| Gateway.Gateway.ResetReceiptContext | internal/gateway/receipt.go:22-34 | forgets the receipt and recomputes its epoch |
| Gateway.Gateway.ResetFirmwareContext | internal/gateway/firmware.go:15-33 | forgets the firmware receipt and recomputes its epoch |
| Gateway.ConfineAdoptedPlainHTTPResponse | internal/gateway/gateway.go:912-964 | overwrites the proposed state and the outcome as specified |
| Gateway.LoadOrCreateState | internal/state/state.go:55-153 | loads a valid state that meets the requested hardware address and serial, moves a pristine pending one to the configured origin, or creates one |
| Gateway.CreateIdentity | internal/state/state.go:125-142 | the requested or random hardware address, the requested serial or one made from it, and a random UUID, or a refusal without random bytes |
| Gateway.New | internal/gateway/gateway.go:237-390 | a start on the given files yields the specified memory, files and saver calls |
| Gateway.ValidateState | internal/state/state.go:155-202 | the scan of the stored nonces accepts exactly the valid states |
| Gateway.Storage.SaveState | internal/state/state.go:206-290 | validates first, then all or nothing unless the failure comes after the rename |
| ReplayWindow.GcmReplayWindow.WithAccepted | internal/gateway/gateway.go:181-201 | the result holds the pushed lists and shares no memory with the window it copies, which keeps its contents |
| ReplayWindow.NonceList.AppendBounded | internal/gateway/gateway.go:203-214 | slice and membership map together: the list becomes the specified push and the map stays its set |
| ReplayWindow.GcmReplayWindow.Contains | internal/gateway/gateway.go:173-179 | membership in either list |
| ReplayWindow.GcmReplayWindow.EncodedProtected | internal/gateway/gateway.go:216-222 | the hex texts of the protected list in order |
| ReplayWindow.NewGcmReplayWindow | internal/gateway/gateway.go:113-145 | succeeds exactly on valid nonce texts and then holds them, duplicate-free, as the protected list |
| ReplayWindow.Rebased | internal/gateway/gateway.go:157-171 | the same window inside its epoch, a new one from the stored nonces otherwise |
| ReplayWindow.PushAges | internal/gateway/gateway.go:203-214 | a new nonce ages every other by one, and one is forgotten exactly at age 128 |
| ReplayWindow.PushBounded | internal/gateway/gateway.go:203-214 | a push keeps the list duplicate-free and at most 128 long and contains the nonce |
| ReplayWindow.ReplayedIsLast | internal/gateway/gateway.go:203-214 | pushing a history of fresh nonces one by one gives exactly its last 128 |
| Adoption.AdoptionState.ApplyControllerResponse | internal/unifi/inform/adoption.go:122-197 | all or nothing: a refused response changes no field, an accepted one yields the specified state and outcome |
| Adoption.AdoptionState.ApplyMgmtCfg | internal/unifi/inform/adoption.go:251-307 | the line loop applies exactly the settings of the text, in order, or refuses it |
| Adoption.AdoptionState.FactoryReset | internal/unifi/inform/adoption.go:336-351 | back to the pending state of the same origin |
| Adoption.ApplyShape | internal/unifi/inform/adoption.go:122-197 | what any accepted response can do: a valid state; only setdefault unadopts or leaves GCM; only setparam touches key, URL or version |
| Adoption.ApplyEntriesKeeps | internal/unifi/inform/adoption.go:251-307 | management text never clears the managed or GCM flags |
| Adoption.UnsupportedControllerSettings | internal/unifi/inform/adoption.go:199-249 | the scan with its five flags reports exactly the categories that the first 512 lines of the first 64 KiB mention, in a fixed order |
| Adoption.IgnoredAre | internal/unifi/inform/adoption.go:199-249 | a reported text is always one of the five fixed names, present exactly when a scanned line belongs to it |
| Adoption.AdoptionState.ApplyCommand | internal/unifi/inform/adoption.go:321-334 | a relayctl yields its decoded rows, every other command is ignored, a malformed name is refused |
| Adoption.AuthorizeIsEquivalence | internal/gateway/controller.go:157-203 | authorization of URL moves is an equivalence and never changes the scheme |
| Receipts.Receipt.Validate | internal/state/receipt.go:82-106 | the loop accepts exactly the valid receipts |
| Receipts.NewReceiptValid | internal/state/receipt.go:60-70 | a receipt built on a valid one from a nonce that passed the replay check is valid, remembers it and forgets at most the oldest |
| ReceiptRuns.ReceiptReplayIsRejected | internal/gateway/gateway.go:483-496 | in persistent mode, after a committed receipt, over any interleaving of answers, write failures, stops and starts with the same configuration, a response with the same nonce changes nothing and is refused as a replay until 128 later receipts of that kind have reached the file; for firmware, if the configuration receipt file was not damaged |
| ReceiptRuns.RunKeepsNonce | internal/gateway/receipt.go:63-100 | memory and receipt file both keep the nonce over every such run, aged by at most the receipts that landed |
| ReceiptRuns.RestartRemembersTarget | internal/gateway/firmware.go:35-54 | the restart after a committed firmware receipt knows its nonce if and only if the configuration receipt file is not damaged; otherwise the same answer is refused because receipts are blocked |
| ReceiptRuns.WriterOwnsState | internal/gateway/receipt.go:17-20 | every process that started in persistent mode owns the stored state whenever it can commit a receipt, so the replay theorem speaks of real runs |
| Classify.ClassifiedTextApplies | internal/unifi/inform/receipt.go:65-112 | on a GCM state an accepted receipt text has, under the transformer, exactly the effect of setting the version - if and only if it has fewer than 256 line-end characters, because the transformer counts CR and LF separately |
| Classify.CRLFTextIsRefused | internal/unifi/inform/adoption.go:251-265 | for every version there is a CRLF text that the classifier accepts and the transformer refuses |
| Classify.ClassifiedAnswerApplies | internal/unifi/inform/receipt.go:24-132 | the same at the level of a whole answer, with the same categories of ignored settings |
| Classify.ClassifiedVersionPrintable | internal/unifi/inform/receipt.go:94-98 | an accepted version is printable ASCII of 1 to 128 characters |
| Classify.OnlyCfgVersionChangesOnlyThat | internal/gateway/gateway.go:966-987 | text that passes the report-only test can change only the version |
| Classify.ClassifyManagement | internal/unifi/inform/receipt.go:65-112 | the line loop computes the specified classification |
| Classify.ClassifyConfigReceipt | internal/unifi/inform/receipt.go:24-132 | accepts exactly the report-only answers of the specification |
| Classify.SetParamHasOnlyCfgVersion | internal/gateway/gateway.go:966-987 | the counting loop decides exactly one non-blank line and only cfgversion settings |
| Hex.EqualFoldIsSameBytes | internal/unifi/inform/adoption.go:443-449 | case-insensitive comparison of hex texts decides equality of the bytes |
| Hex.DecodeEncodeNonces | internal/gateway/gateway.go:128-144 | encoding a nonce list and decoding it again changes nothing |
| PowerReport.ProjectionIsAccepted | internal/unifi/inform/uspda2c.go:609-730 | for every NUT variable map and clock reading the report projected from the mapped snapshot is accepted exactly when the checks of everything that NUT does not supply pass |
| PowerReport.ReportSnapshot | internal/gateway/project.go:14-133 | mapping, projecting and validating together |
| PowerTexts.OutletsExactly | internal/model/model.go:730-787 | an outlet is on exactly when its status variable, trimmed and in any letter case, reads on, and off exactly when it reads off |
| PowerTexts.GroupsExactly | internal/model/model.go:789-852 | an observed group is on exactly when its own row reads on and no member reads off, or, without a status of its own, when all members read on; and the mirror image |
| PowerTexts.SourcesExactly | internal/model/model.go:364-474 | the row that speaks for a group is the only one of the counted rows with its identifier, and states no other size |
| PowerTexts.GroupIdsExactly | internal/model/model.go:313-362 | a group carries the groupid text of its outlets |
| PowerTexts.LayoutExactly | internal/model/model.go:298-362 | the layout is observed exactly when outlet.count is a whole number from 1 to 64; there are so many outlets, and two share a group exactly when they have the same valid groupid |
| PowerTexts.RowsExactly | internal/gateway/project.go:140-229 | each row describes its outlet; in an available report it says true exactly when its group is said to be on, false exactly when off, and carries voltage, current, power and power factor of its own variables; in any other report none of these |
| PowerTexts.FallbackExactly | internal/gateway/project.go:164-196 | without an observed layout the rows are those of the carrier: nine groups of one, or two of four, and nothing measured |
| PowerTexts.DeviceExactly | internal/gateway/project.go:77-131 | every reading of the device comes from its own variables within its bounds, and none is reported unless the report is available; the beeper by its words; the capabilities are 8, or 9 with the NUT server |
| PowerTexts.AvailabilityExactly | internal/model/model.go:208-252 | a report is available exactly when the observation is from the past, no older than the limit, and its status has exactly one of OL, OB and OFF |
| PowerTexts.ChargingReads | internal/model/model.go:560-604 | charging is decided by four words of the charger and two old-style tokens, and by nothing when they disagree |
| PowerTexts.AliasesRead | internal/model/model.go:663-704 | a power is known from one of two variables, or from both exactly when they agree |
| PowerTexts.TokensExactly | internal/model/model.go:510-525 | a status written as words with blanks between them has exactly those tokens |
| PowerTexts.ReportsExactly | internal/unifi/inform/uspda2c.go:544-732 | which reports the validator accepts, in plain bounds; groups are numbered from 1 with every smaller number before, and have one state each |
| PowerTexts.ProjectedRowsExactly | internal/unifi/inform/uspda2c.go:672-731 | which rows of an observed or carrier layout it accepts: one physical kind, a meter wherever current or power is reported, no buttons or energy counters |
| PowerTexts.FirmwareRowsExactly | internal/unifi/inform/uspda2c.go:644-700 | which rows of the two firmware profiles it accepts |
| PowerReport.ValidateOutlets | internal/unifi/inform/uspda2c.go:609-730 | the loop with its two maps accepts exactly the tables whose rows are valid, whose groups are dense in first-occurrence order and whose groups have one state each |
| PowerReport.ValidateReport | internal/unifi/inform/uspda2c.go:544-732 | accepts exactly the valid reports |
| PowerReport.ProjectOutletTopology | internal/gateway/project.go:140-189 | fills the specified rows |
| PowerReport.ProjectAvailableOutletTelemetry | internal/gateway/project.go:191-229 | writes electrical values and group states into the rows in place, as specified |
| PowerReport.ProjectPowerDevice | internal/gateway/project.go:14-133 | the projected report; nothing measured is projected from a stale observation |
| PowerReport.SeenNext | internal/unifi/inform/uspda2c.go:664-682 | one more row: the two map checks decide exactly whether the longer table is still dense and consistent |
| OutletState.GroupsAreSound | internal/model/model.go:313-385 | whatever snapshot was mapped: observed groups partition the outlets, two outlets share a group exactly when they carry the same valid identifier, sources are in range and unique, and no group contradicts a member |
| OutletState.FromSnapshot | internal/model/model.go:208-252 | the mapped state has the specified availability, topology and telemetry |
| OutletState.ModelState.NumberOutlets | internal/model/model.go:313-362 | the loop with its key map numbers the outlets densely by identifier and lists each group's members |
| OutletState.ModelState.InitializeObservedTopology | internal/model/model.go:298-386 | observed layout or untouched fallback |
| OutletState.ModelState.AttachMetadata | internal/model/model.go:364-385 | each group takes its source row exactly when one row carries its identifier and agrees in size |
| OutletState.ModelState.MapGroupRelayStates | internal/model/model.go:789-824 | group states from members and group evidence |
| OutletState.ModelState.MapOutletTelemetry | internal/model/model.go:730-787 | each outlet takes its own telemetry |
| OutletModel.ReadNativeGroupMetadata | internal/model/model.go:388-474 | the table holds exactly the rows whose identifier occurs once |
| OutletModel.DerivedIsExact | internal/model/model.go:835-852 | a derived on or off means that all members, and at least one, are in that state |
| OutletModel.GroupNeverContradicts | internal/model/model.go:789-833 | a group reported on or off has no member observed in the opposite state |
| OutletModel.RelayEvidenceConflicts | internal/model/model.go:826-833 | the loop decides contradiction between a group state and its members |
| OutletModel.DeriveRelay | internal/model/model.go:835-852 | the order-dependent loop computes the specified scan |
| Numbering.NumbersAreGood | internal/model/model.go:313-362 | numbering keys by first occurrence is dense and gives equal numbers exactly to equal keys |
| Numbering.AllUsed | internal/unifi/inform/uspda2c.go:664-671 | in first-occurrence order every number up to the highest is in use |
| RefreshRuns.RunIsDisciplined | internal/netagent/run_linux.go:78-142 | in every DHCP run no address that the kernel does not hold is configured without withdrawal and a probe that found it free, if and only if every refresh is handled before the lifetime that it prolongs has ended |
| RefreshRuns.PassesInTime | internal/netagent/run_linux.go:301-466 | the same for one pass: the log gains only timely refreshes exactly when the heartbeat and the installation of the pass are in time |
| RefreshRuns.NextBeatIsInTime | internal/netagent/run_linux.go:302-318 | a process that is not frozen for about a second is in time: within the lease, a refresh handled less than two seconds after the previous heartbeat finds the address still there |
| RefreshRuns.FrozenAgentReclaims | internal/netagent/link_linux.go:95-101 | a family of healthy clients that go on after their address ran out, configure it again without a probe and stay healthy |
| LeaseRuns.RunKeeps | internal/netagent/run_linux.go:272-467 | in every DHCP run a network - address, prefix and router - that the process has not configured, or has withdrawn since, is configured only after everything was withdrawn and a probe found the address free, nothing is advertised while probing, and at every pass boundary the handoff names the configured address and ends half a second before its lifetime |
| LeaseRuns.RunStaysHealthy | internal/netagent/run_linux.go:300-466 | with prompt installations every phase after an acknowledgement holds a lease and the authorization ends no later than the lease; when the kernel handles each lifetime within a slack, the address is forgotten no later than that slack after the lease |
| LeaseRuns.LifetimeWithinLease | internal/netagent/run_linux.go:104-119 | a heartbeat within the lease gives the address a lifetime within it if and only if the kernel takes no more latency than the whole seconds granted leave of the lease |
| LeaseRuns.ExpiryEndsEverything | internal/netagent/run_linux.go:304-310 | a completed expiry check leaves nothing leased, configured or advertised, whatever lifetime was granted before |
| LeaseRuns.SlowKernelOutlivesLease | internal/netagent/run_linux.go:104-119 | a family of healthy heartbeats after which the address outlives the lease |
| LeaseRuns.PassOutcome | internal/netagent/run_linux.go:447-461 | a completed pass leaves such a phase without a lease if and only if less than a second of the new lease, either way, is left at the installing heartbeat; the authorization outlives the lease if and only if it ended a second or more earlier |
| LeaseRuns.SlowRenewalLosesLease | internal/netagent/run_linux.go:104-116 | a concrete family of renewals, every call succeeding, after which the client is bound without a lease |
| LeaseRuns.LateRenewalOutlivesLease | internal/netagent/run_linux.go:104-119 | a concrete family of renewals, refreshed a second after the new lease ended, that grant authorization and address for more than a century; they last until the next expiry check, or as granted if the process does not reach it |
| LeaseRuns.BoundWithoutLeaseIsStuck | internal/netagent/run_linux.go:302-413 | such a client never acts again, whatever packets and clocks follow |
| LeaseRuns.LeaseComesFromAck | internal/netagent/run_linux.go:398-455 | only an acknowledgement changes the lease: from the server whose offer was requested and for the offered address, from the leasing server, or from any server when rebinding; it expires its duration after the request was prepared |
| LeaseRuns.RunIsBacked | internal/netagent/run_linux.go:447-459 | in every run the lease expires no later than its duration after a request that was attempted |
| LeaseRuns.RunIsTimed | internal/netagent/run_linux.go:309-466 | in every run whose clock does not run backwards and whose transaction ids do not repeat: while the client listens, no request of its transaction is older than the attempt that the new expiry is counted from; and if servers acknowledge only requests that got out, a held lease belongs to a transaction with such a request and expires no later than its duration after every request of it |
| LeaseRuns.ReceiveTimed | internal/netagent/run_linux.go:389-465 | the reception of one packet keeps this |
| LeaseRuns.RunCounts | internal/netagent/run_linux.go:104-124 | within a generation the sequence numbers written in a run strictly increase |
| LeaseRuns.PassKeeps | internal/netagent/run_linux.go:301-465 | one pass keeps the owner sound or, when it returns, at least the order of its actions |
| LeaseRuns.PassBacked | internal/netagent/run_linux.go:301-465 | one pass keeps every lease backed by an attempted request |
| LeaseRuns.AckArrives | internal/netagent/dhcp.go:57-149 | a standard acknowledgement in a standard envelope reaches the client as the lease it carries |
| LeaseRuns.StartsHealthy | internal/netagent/run_linux.go:290-299 | the initial loop state satisfies all run invariants |
| LeaseOwner.HeartbeatKeeps | internal/netagent/run_linux.go:104-142 | after a completed heartbeat the handoff is the current status of the configured address, and the lifetime outlasts it by half a second and the latency of the kernel call |
| LeaseOwner.InstallKeeps | internal/netagent/run_linux.go:78-102 | a completed installation leaves exactly the new network configured under the new lease, or nothing; a failed one keeps the order of actions |
| LeaseOwner.WithdrawKeeps | internal/netagent/run_linux.go:60-76 | a completed withdrawal leaves nothing configured or advertised |
| LeaseOwner.WithdrawKeepsLog | internal/netagent/run_linux.go:60-76 | withdrawing keeps the order of actions from any state that a failure left |
| LeaseOwner.SecondsWithinLease | internal/netagent/run_linux.go:108-112 | the 32-bit lifetime is at most four seconds and within the lease if and only if the lease ended less than a second ago; beyond that it wraps |
| LeaseOwner.HeartbeatKeepsSequence | internal/netagent/run_linux.go:120-121 | a heartbeat writes a newer record of its generation than all before |
| LeaseOwner.InstallKeepsSequence | internal/netagent/run_linux.go:88-92 | a new generation starts over without breaking the order of the old ones |
| LeaseOwner.NetworkIdentity | internal/netconfig/lease.go:100-104 | a renewal keeps the network identity that the gateway compares; a replacement differs in it from every record written before |
| LeaseOwner.WrittenStatusIsValid | internal/netconfig/lease.go:29-39 | a record written within the lease is accepted by the gateway until it runs out, and the kernel still holds the address then |
| Reactions.RefusalWithdraws | internal/netagent/run_linux.go:413-420 | a refusal of the transaction by the server that is listened to takes back handoff, route and address in this order and starts over a second later; if a call fails the client stops |
| Reactions.RefusalEndsEverything | internal/netagent/run_linux.go:389-420 | over every run: after a pass whose packet was such a refusal nothing is leased, configured or advertised, or the client has stopped |
| Reactions.ClaimStops | internal/netagent/run_linux.go:340-350 | with an address leased every pass reads the ARP socket first and goes on only if no other host claims the address in an Ethernet ARP packet |
| Reactions.ClaimIsDeclined | internal/netagent/run_linux.go:340-350 | a claim is answered by a DECLINE with address and server, and ends the client |
| Reactions.ConflictExactly | internal/netagent/run_linux.go:158-163 | which ARP packets are conflicts, byte by byte |
| Reactions.TransmitExactly | internal/netagent/run_linux.go:351-388 | what is sent when it is due, phase by phase, with the next attempt after 4, 8 and then 16 seconds |
| Reactions.RunRetries | internal/netagent/run_linux.go:299-388 | the waiting time is one of these three over every run |
| Reactions.ReceiveExactly | internal/netagent/run_linux.go:389-425 | only awaited messages are acted on; an offer is requested at once with eight seconds to answer; all else is dropped |
| Reactions.GrantExactly | internal/netagent/run_linux.go:426-466 | an awaited acknowledgement ends bound to exactly its lease with more than five seconds left and, for a changed network, after a clear probe and an announcement; or over again, because of a conflict that was declined or too short a lease; or stopped |
| Reactions.GrantSucceeds | internal/netagent/run_linux.go:426-466 | when every call succeeds and the probe is clear it does end bound, with exactly the leased network configured and authorized |
| Reactions.ThreeProbes | internal/netagent/run_linux.go:165-198 | a clear probe sent three probes more than a second apart and saw two silent seconds after them |
| Reactions.SilenceIsClear | internal/netagent/run_linux.go:165-198 | on an undisturbed network the probe ends clear |
| Reactions.KeepsUp | internal/netagent/run_linux.go:301-339 | whenever a packet is read with an address leased, the lease has not ended, the last heartbeat is less than a second old and was logged in order, and renewal and rebinding have begun when due |
| Reactions.RenewExactly | internal/netagent/run_linux.go:320-339 | both timers, each starting a new transaction at once |
| Reactions.ExpiryExactly | internal/netagent/run_linux.go:304-310 | the end of the lease takes everything back |
| Reactions.HeartbeatExactly | internal/netagent/run_linux.go:104-142 | a heartbeat renews the address for the whole seconds left, at most four, and then authorizes it for half a second less, one later in order; with less than a second left it takes everything back |
| Reactions.InstallExactly | internal/netagent/run_linux.go:78-102 | the calls that install a new network, in order, and the authorization they end with |
| Reactions.InstallSucceeds | internal/netagent/run_linux.go:78-102 | an installation succeeds exactly when nothing overlaps and all its calls do |
| DhcpWire.EnvelopeExactly | internal/netagent/link_linux.go:509-521 | the bytes of an envelope: IPv4 without options, time to live 64, UDP, addresses, ports, lengths, a checksum that verifies |
| DhcpWire.MessageExactly | internal/netagent/dhcp.go:29-55 | the bytes and options of a client message |
| DhcpWire.PayloadExactly | internal/netagent/link_linux.go:522-544 | only whole IPv4 UDP datagrams from port 67 to port 68 get through, and what is taken from them |
| DhcpWire.ReplyExactly | internal/netagent/dhcp.go:57-149 | a server message is read as this kind and lease if and only if fixed fields, options, server, network, mask, duration of 30 seconds to a week, and timers say so |
| DhcpWire.StatusExactly | internal/netconfig/lease.go:29-39 | a handoff record authorizes its address, a host of a valid network, for at most five seconds |
| DhcpClient.ClearMeansQuiet | internal/netagent/run_linux.go:165-198 | a probe ends clear only after three probes that got out, each more than a second after the one before, more than two quiet seconds after the last, and no conflicting packet in between |
| DhcpClient.ProbeAddress | internal/netagent/run_linux.go:165-198 | the probing loop computes the specified result |
| DhcpClient.ArpDetection | internal/netagent/run_linux.go:144-163 | an ARP packet of the agent's own kind conflicts exactly when it comes from another host for the same address and is an announcement or meets a probe |
| DhcpClient.MessageIsSound | internal/netagent/dhcp.go:57-149 | every offer or acknowledgement that reaches the loop carries a sound lease |
| NetAgent.AddressOwner.Withdraw | internal/netagent/run_linux.go:60-76 | field by field and action by action the specified withdrawal |
| NetAgent.AddressOwner.Heartbeat | internal/netagent/run_linux.go:104-142 | the specified heartbeat, with its truncating and wrapping arithmetic |
| NetAgent.AddressOwner.Install | internal/netagent/run_linux.go:78-102 | the specified installation |
| NetAgent.DhcpAgent.KeepLease | internal/netagent/run_linux.go:302-350 | expiry, heartbeat, renewal phases and conflict guard as specified |
| NetAgent.DhcpAgent.Transmit | internal/netagent/run_linux.go:351-388 | discovery, timeouts, renewal and rebinding requests as specified, with their wire bytes |
| NetAgent.DhcpAgent.Receive | internal/netagent/run_linux.go:389-425 | offers, refusals and the filter of acknowledgements as specified |
| NetAgent.DhcpAgent.Grant | internal/netagent/run_linux.go:426-465 | withdrawal, probe, margin and installation as specified |
| NetAgent.DhcpAgent.Run | internal/netagent/run_linux.go:300-467 | the loop and its final withdrawal are the specified run; the whole action log is in order, and disciplined by the kernel's clock exactly when every refresh is in time |
| Ipv4.ChecksumVerifies | internal/netagent/link_linux.go:495-508 | for bytes of any length, accumulator wrap-around included, writing the checksum into its zeroed word makes verification give zero |
| Ipv4.ChecksumDetects | internal/netagent/link_linux.go:495-508 | any other value of a word of a verified string is detected, except the other spelling of zero |
| Ipv4.Checksum | internal/netagent/link_linux.go:495-508 | the summing loop and the folding loop end and compute the residue modulo 65535 |
| Ipv4.FoldKeepsResidue | internal/netagent/link_linux.go:504-506 | each fold makes the sum smaller and keeps its residue |
| Ipv4.RecoversPayload | internal/netagent/link_linux.go:522-544 | the payload of any envelope built with the ports exchanged, with or without a UDP checksum, is recovered if and only if its length fits the header field |
| Ipv4.Ipv4Broadcast | internal/netagent/link_linux.go:509-521 | fills the buffer in place with the specified envelope |
| Ipv4.FromSource | internal/netagent/run_linux.go:369-375 | re-addresses an envelope and its checksum in place |
| Dhcp.ReplyRoundTrip | internal/netagent/dhcp.go:57-149 | every sound lease of whole seconds, written as a server writes it, with explicit or default timers, is read back exactly |
| Dhcp.ReplyIsSound | internal/netagent/dhcp.go:57-149 | an accepted reply belongs to this transaction and client; a lease has an acceptable network, bounded duration and ordered timers; a refusal carries no address |
| Dhcp.OptionsRoundTrip | internal/netagent/dhcp.go:64-91 | the option parser reads back written options, whatever precedes and follows them |
| Dhcp.PacketOptions | internal/netagent/dhcp.go:29-55 | the parser reads back exactly the options of the client's own messages |
| Dhcp.ParseReply | internal/netagent/dhcp.go:57-149 | the index-walking loop computes the specified reply |
| Dhcp.BuildPacket | internal/netagent/dhcp.go:29-55 | fills, appends and pads the specified message |
| Dhcp.MaskSizeFinds | internal/netagent/dhcp.go:122-125 | the length of a contiguous mask is found |
| NetConfig.ValidAddressIsHostPair | internal/netconfig/lease.go:41-64 | an acceptable address and its router are two different usable hosts of one network, so their roles can be exchanged |
| Discovery.MarshalRoundTrip | internal/unifi/discovery/packet.go:106-200 | every valid version 2 announcement marshals into at most 7551 bytes, and parsing them gives it back up to the four-byte form of its addresses and the wire-ordering flag |
| Discovery.ParsedMarshalsBack | internal/unifi/discovery/packet.go:264-431 | writing what was parsed and parsing it again changes nothing, whatever order and unknown records the packet had |
| Discovery.ParsePacket | internal/unifi/discovery/packet.go:264-431 | the consuming loop computes the specified parse |
| Discovery.MarshalPacket | internal/unifi/discovery/packet.go:106-200 | the appending writer produces the specified bytes |
| DiscoveryWire.PacketExactly | internal/unifi/discovery/packet.go:106-200 | an announcement with a valid identity of at most 8192 bytes is sent as version, command, big-endian length and its records, given by their 24 numeric codes in the order of the firmware |
| DiscoveryWire.FieldIsSent | internal/unifi/discovery/packet.go:106-190 | every field that an announcement has and its version knows is in the body as a record of its numeric code, its big-endian length and its bytes |
| DiscoveryWire.TakeExactly | internal/unifi/discovery/packet.go:301-426 | what a record of each numeric code does to the announcement read so far, which are refused, and which may occur only once |
| DiscoveryWire.OneRecordExactly | internal/unifi/discovery/packet.go:264-431 | a packet of one record sets exactly the field of its numeric code in an otherwise empty announcement |
| DiscoveryWire.IdentitiesExactly | internal/unifi/discovery/packet.go:203-260 | which identities may be announced |
| Discovery.BodyBound | internal/unifi/discovery/packet.go:192-194 | the datagram limit cannot be hit by a valid version 2 announcement |
| Discovery.SetGet | internal/unifi/discovery/packet.go:301-426 | taking in a record sets exactly its own field to exactly its value |
| Discovery.SameRecords | internal/unifi/discovery/packet.go:35-61 | an announcement is determined by its records |
| Discovery.FieldsParse | internal/unifi/discovery/packet.go:285-301 | a group of written records is taken in one by one |
| Discovery.AddressesParse | internal/unifi/discovery/packet.go:306-310 | the repeatable address records are taken in in order |
| Codec.DecodeInvertsEncode | internal/unifi/inform/codec.go:242-340 | given only that opening inverts sealing and block decryption inverts encryption, decoding recovers sender, payload, mode and nonce of everything the encoder produces within the limits |
| Codec.AcceptedHeaderIsCanonical | internal/unifi/inform/codec.go:255-300 | the decoder accepts no other header than the one the encoder writes for the same content |
| CodecWire.EncodeExactly | internal/unifi/inform/codec.go:126-188 | a packet is made if and only if sender, text, size, key and nonce or vector allow it; its 40 header bytes in numbers, its padding, its nonce of prefix and big-endian counter, and its body under the key |
| CodecWire.DecodeExactly | internal/unifi/inform/codec.go:242-340 | a packet is accepted, and read as this, if and only if it has such a header, the expected sender and mode, a size within the limits, and a body that opens under the key |
| CodecWire.KeyExactly | internal/unifi/inform/codec.go:354-366 | a key text is the 32 hexadecimal digits of its 16 bytes |
| CodecWire.HeaderExactly | internal/unifi/inform/codec.go:342-352 | the header byte by byte |
| Codec.NoncesNeverRepeat | internal/unifi/inform/codec.go:199-209 | no two GCM packets of one encoder carry the same nonce, whatever calls fail in between, until it refuses |
| Codec.EncodeStep | internal/unifi/inform/codec.go:126-188 | a GCM call fails or uses the current counter value, and the counter never comes back from zero |
| Codec.StripPadding | internal/unifi/inform/codec.go:379-396 | the branch-free check decides the plain padding rule on every input |
| Codec.StripInvertsPad | internal/unifi/inform/codec.go:211-224 | stripping inverts padding, and gives a text only for its padded form |
| Codec.PadBlocks | internal/unifi/inform/codec.go:215-224 | the filling loop produces the padded form |
| Codec.MarshalHeader | internal/unifi/inform/codec.go:342-352 | fills the 40 bytes of the specified header |
| Codec.Encoder.EncodePacket | internal/unifi/inform/codec.go:126-188 | the specified packet or refusal, and the specified new counter |
| Codec.Encoder.NextGcmNonce | internal/unifi/inform/codec.go:199-209 | prefix and counter, or a refusal when the counter ran out |
| NutWire.ArgumentRoundTrip | internal/nut/client.go:329-344 | a formatted argument behind a keyword is read back as exactly these two tokens if and only if it is not empty, is valid UTF-8 and holds no line break or zero byte |
| NutWire.CredentialRoundTrip | internal/nut/client.go:317-344 | every valid credential is read back unchanged |
| NutText.LineExactly | internal/nut/parser.go:12-72 | a line is read as these tokens if and only if it is text and a way of writing them: bare where they have no blank or quotation mark, or in quotes with a backslash before quotation marks and backslashes only, with blanks between them |
| NutText.TextExactly | internal/nut/parser.go:13-16 | valid UTF-8 is exactly what some sequence of Unicode characters without surrogates is written as |
| NutWire.TokensRequote | internal/nut/parser.go:12-72 | the tokens of any accepted line, quoted again, are read back as themselves |
| NutWire.TokensAreGood | internal/nut/parser.go:12-72 | every token is valid UTF-8 without line breaks and zero bytes |
| NutWire.ParseLine | internal/nut/parser.go:12-72 | the nested loops end, stay in bounds and compute the specified tokens or refuse |
| NutWire.FormatArgument | internal/nut/client.go:329-344 | the character loop writes the specified quoting |

## Left out

- AES, GCM, SHA-256 and HMAC: the codec assumes only that opening inverts sealing and block decryption inverts encryption; a
  receipt epoch is an arbitrary function of key and context; a replay epoch is the key itself instead of its digest, which
  amounts to a digest without collisions.
- JSON and URL parsing: a controller answer is the pair of its two decodings, a URL parser is an arbitrary function, and the
  duplicate-key and depth checks of the decoder are not modelled. The relay rows of a relayctl command arrive decoded.
- HTTP, TLS, UDP, packet sockets, netlink and interface discovery: their results are inputs. Preparing the interface, the
  auxiliary route and the loop for a static address are not modelled; the owner's operations with an expiry that is
  never reached are.
- The NUT client's connection, login and variable listing, and UniFi payload building after validation: only the tokenizer and the
  quoting of arguments are modelled.
- File modes, symbolic links, temporary files and fsync: a save succeeds, fails with nothing changed, or fails with the new
  content in place.
- Text is UTF-8 bytes and trimming removes Unicode white space; case folding of non-ASCII letters is modelled only as far as
  comparison with ASCII words goes, so two host names that differ in such letters alone count as different.
- Gateway.New: the startup checks that do not touch the state, before and after it is loaded, are two flags.
- PowerReport.ValidateReport: adoption, identity, clock, interface and server checks of the report are one flag, because NUT
  supplies none of their values.
- PowerReport.ProjectPowerDevice: the fields behind that flag are not modelled.
- Floating point: measurements are real numbers; rounding and the largest representable value are not modelled.
- Names and types of relay groups, diagnostic issue codes and the classification of physical outlet types, which is an
  arbitrary function; the projection depends on none of them.
- IPv4 addresses of the network agent are numbers; the dotted text form and its parser are not modelled.
- The kernel's own clean-up: what becomes of the default route when an address runs out is not modelled.
- ReceiptRuns.ReceiptReplayIsRejected: persistent mode; in the memory-only mode receipts and their nonces end with the
  process.
- Clock values are unbounded integers; Go's saturating subtraction of times more than 292 years apart is not modelled.
- Logging, metrics, health, configuration loading and the poll, announcement and inform timers.
- Version 1 discovery round trips: version 1 drops or rejects fields that only version 2 has; its writer and parser are
  modelled.
- LeaseRuns.RunStaysHealthy: assumes prompt installations; without that the exact condition is in LeaseRuns.PassOutcome,
  whose reading in seconds assumes that an installation takes less than 136 years.
- LeaseRuns.RunIsTimed: assumes a clock that does not run backwards and transaction ids that do not repeat; RunIsBacked needs
  neither and says less.
- LeaseRuns.RunCounts: assumes that drawn generations do not repeat and that fewer than 2^63 passes are made.
- LeaseRuns.RunKeeps: speaks of what the process itself configured and withdrew; whether the kernel still has it is the
  subject of RefreshRuns.RunIsDisciplined. Both assume that the kernel handles a request no earlier than the clock was read
  for it, and start after the initial withdrawal; a phase of discovery may still hold a lease when an unchanged one was
  nearly used up.
- OutletModel.DeriveRelay: the answer "mixed" depends on the order of the members and is given no meaning of its own; on and
  off are exact.
- Settings.WrittenTextTakesEffect: values of printable ASCII; Settings.SettingsTakeEffect has no such limit.
- Reactions.GrantExactly: does not say which failing call stopped the client; when none fails, Reactions.GrantSucceeds says that
  it does not stop.
- DhcpWire.EnvelopeExactly: messages that fit the 16-bit length, which every message of the client does.
- CodecWire.EncodeExactly: wire limits below 2^32, the width of the length field.
- Ipv4.ChecksumDetects: stated for strings of at most 128 KiB, where the accumulator cannot wrap.
- NetAgent.DhcpAgent.Run: cancellation is the end of the script of passes; a cancellation inside a failing probe ends the run
  like any other failure.
