/** The canonical state that one NUT snapshot is mapped to, filled in place field by field. */
module OutletState {
  import opened Basics
  import opened Text
  import opened Numbering
  import opened OutletModel

  // ---- Topology ---------------------------------------------------------------------------------

  function NumberedOutlets(vars: Variables, numbers: seq<int>): (outlets: seq<Outlet>)
    requires |numbers| <= MAX_OUTLETS
    ensures |outlets| == |numbers|
    ensures forall i :: 0 <= i < |numbers| ==> outlets[i] == NumberedOutlet(vars, i + 1, numbers[i])
  {
    seq(|numbers|, i requires 0 <= i < |numbers| => NumberedOutlet(vars, i + 1, numbers[i]))
  }

  /** A row that can speak for a group: the only one with its identifier, and of the stated size if one is stated. */
  ghost predicate IsSource(rows: seq<NativeGroup>, g: OutletGroup, row: NativeGroup) {
    row in rows && g.nativeID != "" && row.nativeID == g.nativeID && Count(rows, g.nativeID) == 1 && SizeAgrees(row, |g.members|)
  }

  ghost predicate Attached(rows: seq<NativeGroup>, g: OutletGroup) {
    && (forall row :: IsSource(rows, g, row) ==>
          g.sourceIndex == row.sourceIndex && g.switchable == row.switchable && g.switchablePresent == row.switchablePresent)
    && ((forall row :: !IsSource(rows, g, row)) ==> g.sourceIndex == 0 && !g.switchablePresent)
  }

  lemma {:induction false} CountOneUnique(rows: seq<NativeGroup>, a: NativeGroup, b: NativeGroup)
    requires a in rows && b in rows && a.nativeID == b.nativeID && Count(rows, a.nativeID) == 1
    ensures a == b
  {
    var before, last := rows[..|rows| - 1], rows[|rows| - 1];
    if last.nativeID == a.nativeID {
      CountZero(before, a.nativeID);
    } else {
      CountOneUnique(before, a, b);
    }
  }

  lemma {:induction false} CountZero(rows: seq<NativeGroup>, id: string)
    requires Count(rows, id) == 0
    ensures forall row :: row in rows ==> row.nativeID != id
  {
    if rows != [] {
      CountZero(rows[..|rows| - 1], id);
    }
  }

  lemma AttachIsAttached(rows: seq<NativeGroup>, byID: map<string, NativeGroup>, g: OutletGroup)
    requires TableOf(rows, byID) && g.sourceIndex == 0 && !g.switchablePresent
    ensures Attached(rows, Attach(g, byID))
  {
    var a := Attach(g, byID);
    forall row | IsSource(rows, a, row)
      ensures a.sourceIndex == row.sourceIndex && a.switchable == row.switchable && a.switchablePresent == row.switchablePresent
    {
      CountOneUnique(rows, row, byID[g.nativeID]);
    }
    if g.nativeID != "" && g.nativeID in byID && SizeAgrees(byID[g.nativeID], |g.members|) {
      assert IsSource(rows, a, byID[g.nativeID]);
    }
  }

  lemma AllAttached(rows: seq<NativeGroup>, byID: map<string, NativeGroup>, before: seq<OutletGroup>,
                    groups: seq<OutletGroup>)
    requires TableOf(rows, byID) && Blank(before) && |groups| == |before|
    requires forall k :: 0 <= k < |groups| ==> groups[k] == Attach(before[k], byID)
    ensures forall k :: 0 <= k < |groups| ==> Attached(rows, groups[k]) && groups[k].relay == Unknown
  {
    hide TableOf, Attached, SizeAgrees;
    forall k | 0 <= k < |groups|
      ensures Attached(rows, groups[k])
    {
      AttachIsAttached(rows, byID, before[k]);
    }
  }

  /** Attaching metadata touches neither members nor identifiers. */
  lemma AttachKeepsGroups(ids: seq<string>, numbers: seq<int>, byID: map<string, NativeGroup>,
                          before: seq<OutletGroup>, groups: seq<OutletGroup>)
    requires |ids| == |numbers| && GroupsFor(ids, numbers, before) && |groups| == |before|
    requires forall k :: 0 <= k < |groups| ==> groups[k] == Attach(before[k], byID)
    ensures GroupsFor(ids, numbers, groups)
  {
    hide SizeAgrees, Positions, Highest;
  }

  /** The observed topology: the outlets are numbered by their group keys, and the groups list them exactly. */
  ghost predicate Topology(rows: seq<NativeGroup>, vars: Variables, count: nat, outlets: seq<Outlet>,
                           groups: seq<OutletGroup>)
    requires count <= MAX_OUTLETS
  {
    var ids := GroupIDs(vars, count);
    var numbers := Numbers(KeysOf(ids));
    && outlets == NumberedOutlets(vars, numbers)
    && GroupsFor(ids, numbers, groups)
    && forall k :: 0 <= k < |groups| ==> Attached(rows, groups[k]) && groups[k].relay == Unknown
  }

  /** The groups and the key map while the outlets are numbered one by one. */
  ghost predicate Growing(ids: seq<string>, numbers: seq<int>, groups: seq<OutletGroup>, groupByKey: map<Key, int>) {
    && |ids| == |numbers| && numbers == Numbers(KeysOf(ids))
    && GroupsFor(ids, numbers, groups) && Indexed(KeysOf(ids), numbers, groupByKey) && Blank(groups)
  }

  ghost predicate Blank(groups: seq<OutletGroup>) {
    Unattached(groups) && forall k :: 0 <= k < |groups| ==> groups[k].relay == Unknown
  }

  /** One turn of the numbering loop: the outlet joins the group of its key or opens the next one. */
  lemma GrowOne(ids: seq<string>, numbers: seq<int>, groups: seq<OutletGroup>, groupByKey: map<Key, int>, id: string)
    requires Growing(ids, numbers, groups, groupByKey)
    ensures var key := KeyOf(id, |ids| + 1);
      var offset := if key in groupByKey then groupByKey[key] else |groups|;
      && 0 <= offset <= |groups|
      && Growing(ids + [id], numbers + [offset + 1], Join(groups, offset, id, |ids| + 1), groupByKey[key := offset])
  {
    hide GroupsFor, Indexed, Blank, Numbers, NumberFor, GoodNumbers, Highest, KeyOf;
    var keys, key := KeysOf(ids), KeyOf(id, |ids| + 1);
    var offset := if key in groupByKey then groupByKey[key] else |groups|;
    GroupCount(ids, numbers, groups);
    KeysNext(ids, id);
    NumbersAreGood(keys);
    IndexedNext(keys, numbers, groupByKey, key);
    OffsetFits(keys, numbers, key, offset);
    NumbersAppend(keys, key);
    if offset < |groups| {
      NewOffset(keys, numbers, groupByKey, key, offset);
      SameGroupSameID(ids, numbers, groups, groupByKey, id, |ids| + 1);
    }
    GroupsNext(ids, numbers, groups, offset, id);
    UnattachedNext(groups, offset, id, |ids| + 1);
  }

  lemma GrowNothing(vars: Variables)
    ensures Growing([], [], [], map[]) && NumberedOutlets(vars, []) == [] && GroupIDs(vars, 0) == []
  {
  }

  lemma GroupCount(ids: seq<string>, numbers: seq<int>, groups: seq<OutletGroup>)
    requires |ids| == |numbers| && GroupsFor(ids, numbers, groups)
    ensures |groups| == Highest(numbers)
  {
  }

  lemma KeysNext(ids: seq<string>, id: string)
    ensures KeysOf(ids + [id]) == KeysOf(ids) + [KeyOf(id, |ids| + 1)]
  {
  }

  lemma OffsetFits(keys: seq<Key>, numbers: seq<int>, key: Key, offset: int)
    requires GoodNumbers(keys, numbers) && NumberFor(keys, numbers, key) == offset + 1
    ensures 0 <= offset <= Highest(numbers)
  {
    NumberForFits(keys, numbers, key);
  }

  lemma NewOffset(keys: seq<Key>, numbers: seq<int>, groupByKey: map<Key, int>, key: Key, offset: int)
    requires GoodNumbers(keys, numbers) && NumberFor(keys, numbers, key) == offset + 1 && offset < Highest(numbers)
    requires Indexed(keys, numbers, groupByKey)
    ensures key in groupByKey
  {
    NumberForFits(keys, numbers, key);
  }

  lemma OutletsNext(vars: Variables, numbers: seq<int>, n: int)
    requires |numbers| < MAX_OUTLETS
    ensures NumberedOutlets(vars, numbers + [n]) == NumberedOutlets(vars, numbers) + [NumberedOutlet(vars, |numbers| + 1, n)]
  {
  }

  lemma SameGroupSameID(ids: seq<string>, numbers: seq<int>, groups: seq<OutletGroup>, groupByKey: map<Key, int>,
                        id: string, index: nat)
    requires |ids| == |numbers| && index == |ids| + 1 && GroupsFor(ids, numbers, groups)
    requires Indexed(KeysOf(ids), numbers, groupByKey) && KeyOf(id, index) in groupByKey
    requires 0 <= groupByKey[KeyOf(id, index)] < |groups|
    ensures groups[groupByKey[KeyOf(id, index)]].nativeID == id
  {
    var i :| 0 <= i < |ids| && KeysOf(ids)[i] == KeyOf(id, index);
    assert groupByKey[KeysOf(ids)[i]] + 1 == numbers[i];
  }

  lemma UnattachedNext(groups: seq<OutletGroup>, offset: nat, id: string, index: int)
    requires Blank(groups) && offset <= |groups|
    ensures Blank(Join(groups, offset, id, index))
  {
  }

  // ---- Status and measurements ------------------------------------------------------------------

  /** strings.Fields. */
  function Fields(s: string): (fields: seq<string>)
    decreases |s|
  {
    if s == "" then []
    else if SpaceSize(s) > 0 then Fields(s[SpaceSize(s)..])
    else
      var word := Word(s);
      [word] + Fields(s[|word|..])
  }

  function Word(s: string): (w: string)
    ensures |w| <= |s| && (s != "" && SpaceSize(s) == 0 ==> |w| > 0)
  {
    if s == "" || SpaceSize(s) > 0 then "" else [s[0]] + Word(s[1..])
  }

  predicate HasToken(vars: Variables, token: string) {
    token in Fields(Lookup(vars, "ups.status"))
  }

  function PowerSources(vars: Variables): nat {
    (if HasToken(vars, "OL") then 1 else 0) + (if HasToken(vars, "OB") then 1 else 0) + (if HasToken(vars, "OFF") then 1 else 0)
  }

  /** Modern charger text wins over the legacy tokens unless they contradict it; contradictions leave nothing known. */
  function ChargingOf(vars: Variables): Truth {
    var legacyCharging, legacyDischarging := HasToken(vars, "CHRG"), HasToken(vars, "DISCHRG");
    var text := LowerWord(Trim(Lookup(vars, "battery.charger.status"), true));
    var modern := "battery.charger.status" in vars;
    if modern && text !in {"charging", "discharging", "floating", "resting"} then UNDECIDED
    else if legacyCharging && legacyDischarging then UNDECIDED
    else if !modern then
      if legacyCharging then Truth(true, true) else if legacyDischarging then Truth(false, true) else UNDECIDED
    else if (legacyCharging && text != "charging") || (legacyDischarging && text != "discharging") then UNDECIDED
    else Truth(text == "charging", true)
  }

  function StatusOf(vars: Variables): Status {
    if Fields(Lookup(vars, "ups.status")) == [] then Status(UNDECIDED, ChargingOf(vars))
    else Status(Truth(HasToken(vars, "OB"), PowerSources(vars) > 0), ChargingOf(vars))
  }

  function BeeperOf(vars: Variables): Beeper {
    var text := LowerWord(Trim(Lookup(vars, "ups.beeper.status"), true));
    if "ups.beeper.status" !in vars then BeeperUnknown
    else if text == "enabled" then BeeperEnabled
    else if text == "disabled" then BeeperDisabled
    else if text == "muted" then BeeperMuted
    else BeeperUnknown
  }

  /** One of two aliases, or both when they agree; a malformed alias spoils the pair. */
  function Aliased(r: Readers, vars: Variables, primary: string, alternate: string, allowZero: bool): (m: Measurement)
    ensures m.known ==> 0.0 <= m.value <= MAX_POWER && (!allowZero ==> m.value != 0.0)
  {
    var a := if primary in vars then ParseMeasurement(r, vars[primary], 0.0, MAX_POWER) else UNMEASURED;
    var b := if alternate in vars then ParseMeasurement(r, vars[alternate], 0.0, MAX_POWER) else UNMEASURED;
    var goodA := primary in vars ==> a.known && (allowZero || a.value != 0.0);
    var goodB := alternate in vars ==> b.known && (allowZero || b.value != 0.0);
    if !goodA || !goodB then UNMEASURED
    else if primary in vars && alternate in vars then (if a.value == b.value then a else UNMEASURED)
    else if primary in vars then a
    else b
  }

  function OutputPowerFactor(r: Readers, vars: Variables, watts: Measurement, apparent: Measurement): (m: Measurement)
    ensures m.known ==> 0.0 <= m.value <= 1.0
  {
    if "output.powerfactor" in vars then ParseMeasurement(r, vars["output.powerfactor"], 0.0, 1.0)
    else if !watts.known || !apparent.known || apparent.value == 0.0 || watts.value > apparent.value then UNMEASURED
    else
      var ratio := watts.value / apparent.value;
      if 0.0 <= ratio <= 1.0 then Measurement(ratio, true) else UNMEASURED
  }

  function PowerOf(r: Readers, vars: Variables): Power {
    var watts := Aliased(r, vars, "ups.realpower", "output.realpower", true);
    var apparent := Aliased(r, vars, "ups.power", "output.power", true);
    Power(Measure(r, vars, "battery.charge", 0.0, 100.0), Measure(r, vars, "battery.runtime", 0.0, MAX_RUNTIME),
          Measure(r, vars, "input.voltage", 0.0, 1000.0), Measure(r, vars, "output.voltage", 0.0, 1000.0),
          Measure(r, vars, "output.current", 0.0, 10000.0), watts,
          Aliased(r, vars, "ups.realpower.nominal", "output.realpower.nominal", false),
          OutputPowerFactor(r, vars, watts, apparent))
  }

  ghost predicate PowerInRange(p: Power) {
    && (p.chargePercent.known ==> 0.0 <= p.chargePercent.value <= 100.0)
    && (p.runtime.known ==> 0.0 <= p.runtime.value <= MAX_RUNTIME)
    && (p.inputVoltage.known ==> 0.0 <= p.inputVoltage.value) && (p.outputVoltage.known ==> 0.0 <= p.outputVoltage.value)
    && (p.outputCurrent.known ==> 0.0 <= p.outputCurrent.value)
    && (p.outputPower.known ==> 0.0 <= p.outputPower.value <= MAX_POWER)
    && (p.outputNominal.known ==> 0.0 < p.outputNominal.value <= MAX_POWER)
    && (p.powerFactor.known ==> 0.0 <= p.powerFactor.value <= 1.0)
  }

  // ---- The state --------------------------------------------------------------------------------

  datatype Snapshot = Snapshot(collectedAt: int, variables: Option<Variables>)

  datatype View = View(availability: Availability, topologyObserved: bool, nativeGroups: seq<NativeGroup>, groups: seq<OutletGroup>,
                       outlets: seq<Outlet>, status: Status, beeper: Beeper, power: Power)

  /** Freshness first, then the meaning of ups.status. */
  function AvailabilityOf(s: Snapshot, now: int, staleAfter: int): Availability {
    if s.collectedAt == 0 || s.variables.None? || now < s.collectedAt then Unavailable
    else if PowerSources(s.variables.value) != 1 then Unavailable
    else if now - s.collectedAt > staleAfter then Stale
    else Available
  }

  function TelemetryAll(r: Readers, vars: Variables, groups: seq<OutletGroup>,
                        outlets: seq<Outlet>): (mapped: seq<Outlet>)
    requires forall i :: 0 <= i < |outlets| ==> 0 <= outlets[i].index < 100
    ensures |mapped| == |outlets|
    ensures forall i :: 0 <= i < |outlets| ==> mapped[i] == Telemetry(r, vars, groups, outlets[i])
  {
    seq(|outlets|, i requires 0 <= i < |outlets| => Telemetry(r, vars, groups, outlets[i]))
  }

  ghost function RelayAll(groups: seq<OutletGroup>, outlets: seq<Outlet>,
                          rows: seq<NativeGroup>): (mapped: seq<OutletGroup>)
    ensures |mapped| == |groups|
    ensures forall k :: 0 <= k < |groups| ==> mapped[k] == groups[k].(relay := GroupRelay(groups[k], outlets, rows))
  {
    seq(|groups|, k requires 0 <= k < |groups| => groups[k].(relay := GroupRelay(groups[k], outlets, rows)))
  }

  /** The outlets and groups after the topology was chosen and before telemetry was read. */
  ghost predicate Layout(r: Readers, vars: Variables, rows: seq<NativeGroup>, observed: bool, outlets: seq<Outlet>,
                         groups: seq<OutletGroup>) {
    match ObservedCount(r, vars)
    case None => !observed && outlets == FallbackOutlets() && groups == FallbackGroups()
    case Some(count) => observed && Topology(rows, vars, count, outlets, groups)
  }

  /** The complete meaning of a usable snapshot. */
  ghost predicate Observes(r: Readers, s: Snapshot, now: int, staleAfter: int, v: View) {
    && v.availability == AvailabilityOf(s, now, staleAfter)
    && if s.collectedAt == 0 || s.variables.None? || now < s.collectedAt then
         !v.topologyObserved && v.outlets == FallbackOutlets() && v.groups == FallbackGroups() && v.power == NO_POWER
       else
         var vars := s.variables.value;
         && v.nativeGroups == NativeRows(r, vars) && v.status == StatusOf(vars) && v.beeper == BeeperOf(vars) && v.power == PowerOf(r, vars)
         && exists outlets, groups :: Mapped(r, vars, v, outlets, groups)
  }

  ghost predicate Mapped(r: Readers, vars: Variables, v: View, outlets: seq<Outlet>, groups: seq<OutletGroup>) {
    && Layout(r, vars, v.nativeGroups, v.topologyObserved, outlets, groups)
    && (forall i :: 0 <= i < |outlets| ==> 0 <= outlets[i].index < 100)
    && v.outlets == TelemetryAll(r, vars, groups, outlets)
    && v.groups == RelayAll(groups, v.outlets, v.nativeGroups)
  }

  class ModelState {
    var availability: Availability
    var topologyObserved: bool
    var nativeGroups: seq<NativeGroup>
    var groups: seq<OutletGroup>
    var outlets: seq<Outlet>
    var status: Status
    var beeper: Beeper
    var power: Power

    function Value(): View
      reads this
    {
      View(availability, topologyObserved, nativeGroups, groups, outlets, status, beeper, power)
    }

    /** initializeFallbackTopology: two zones of four outlets. */
    constructor ()
      ensures Value() == View(Available, false, [], FallbackGroups(), FallbackOutlets(), Status(UNDECIDED, UNDECIDED), BeeperUnknown, NO_POWER)
    {
      availability, topologyObserved, nativeGroups := Available, false, [];
      groups, outlets := FallbackGroups(), FallbackOutlets();
      status, beeper, power := Status(UNDECIDED, UNDECIDED), BeeperUnknown, NO_POWER;
    }

    /** The first loop of initializeObservedTopology. */
    method NumberOutlets(vars: Variables, count: nat)
      requires count <= MAX_OUTLETS && outlets == [] && groups == []
      modifies this`groups, this`outlets
      ensures var ids := GroupIDs(vars, count);
        var numbers := Numbers(KeysOf(ids));
        outlets == NumberedOutlets(vars, numbers) && GroupsFor(ids, numbers, groups) && Blank(groups)
    {
      hide GroupsFor, Indexed, Blank, Numbers, GroupID, NumberedOutlet, KeyOf, KeysOf;
      var groupByKey: map<Key, int> := map[];
      GrowNothing(vars);
      ghost var ids: seq<string>, numbers: seq<int> := [], [];
      for offset := 0 to count
        invariant ids == GroupIDs(vars, offset) && Growing(ids, numbers, groups, groupByKey)
        invariant outlets == NumberedOutlets(vars, numbers)
      {
        var index := offset + 1;
        var groupID := GroupID(vars, index);
        var key := KeyOf(groupID, index);
        GrowOne(ids, numbers, groups, groupByKey, groupID);
        var groupOffset := if key in groupByKey then groupByKey[key] else |groups|;
        OutletsNext(vars, numbers, groupOffset + 1);
        groupByKey := groupByKey[key := groupOffset];
        groups := Join(groups, groupOffset, groupID, index);
        outlets := outlets + [NumberedOutlet(vars, index, groupOffset + 1)];
        ids, numbers := ids + [groupID], numbers + [groupOffset + 1];
        assert ids == GroupIDs(vars, index);
      }
    }

    method InitializeObservedTopology(r: Readers, vars: Variables)
      requires !topologyObserved && outlets == FallbackOutlets() && groups == FallbackGroups()
      modifies this`nativeGroups, this`topologyObserved, this`groups, this`outlets
      ensures nativeGroups == NativeRows(r, vars) && Layout(r, vars, nativeGroups, topologyObserved, outlets, groups)
    {
      hide NativeRows, GroupsFor, Numbers, FallbackOutlets, FallbackGroups, Attached;
      var rows, byID := ReadNativeGroupMetadata(r, vars);
      nativeGroups := rows;
      var parsed := ObservedCount(r, vars);
      if parsed.None? {
        return;
      }
      topologyObserved, groups, outlets := true, [], [];
      NumberOutlets(vars, parsed.value);
      AttachMetadata(byID, GroupIDs(vars, parsed.value));
    }

    /** The second loop of initializeObservedTopology. */
    method AttachMetadata(byID: map<string, NativeGroup>, ghost ids: seq<string>)
      requires TableOf(nativeGroups, byID) && Blank(groups) && GroupsFor(ids, Numbers(KeysOf(ids)), groups)
      modifies this`groups
      ensures GroupsFor(ids, Numbers(KeysOf(ids)), groups)
      ensures forall k :: 0 <= k < |groups| ==> Attached(nativeGroups, groups[k]) && groups[k].relay == Unknown
    {
      hide TableOf, Attached, Attach, GroupsFor, Blank, Numbers, KeysOf;
      ghost var before := groups;
      for k := 0 to |groups|
        invariant |groups| == |before|
        invariant forall j :: k <= j < |groups| ==> groups[j] == before[j]
        invariant forall j :: 0 <= j < k ==> groups[j] == Attach(before[j], byID)
      {
        groups := groups[k := Attach(groups[k], byID)];
      }
      AllAttached(nativeGroups, byID, before, groups);
      AttachKeepsGroups(ids, Numbers(KeysOf(ids)), byID, before, groups);
    }

    method MapOutletTelemetry(r: Readers, vars: Variables)
      requires forall i :: 0 <= i < |outlets| ==> 0 <= outlets[i].index < 100
      modifies this`outlets
      ensures outlets == TelemetryAll(r, vars, groups, old(outlets))
    {
      ghost var before := outlets;
      for i := 0 to |outlets|
        invariant |outlets| == |before|
        invariant forall j :: i <= j < |outlets| ==> outlets[j] == before[j]
        invariant forall j :: 0 <= j < i ==> outlets[j] == Telemetry(r, vars, groups, before[j])
      {
        outlets := outlets[i := Telemetry(r, vars, groups, outlets[i])];
      }
    }

    method MapGroupRelayStates()
      modifies this`groups
      ensures groups == RelayAll(old(groups), outlets, nativeGroups)
    {
      ghost var before := groups;
      for k := 0 to |groups|
        invariant |groups| == |before|
        invariant forall j :: k <= j < |groups| ==> groups[j] == before[j]
        invariant forall j :: 0 <= j < k ==> groups[j] == before[j].(relay := GroupRelay(before[j], outlets, nativeGroups))
      {
        var g := groups[k];
        var members := RelaysOf(outlets, g.members);
        var relay := DeriveRelay(members);
        if g.sourceIndex != 0 {
          if !(1 <= g.sourceIndex <= |nativeGroups|) {
            relay := Unknown;
          } else {
            var row := nativeGroups[g.sourceIndex - 1];
            if row.relayPresent {
              var conflict := RelayEvidenceConflicts(members, row.relay);
              relay := if row.relay == Unknown || conflict then Unknown else row.relay;
            }
          }
        }
        groups := groups[k := g.(relay := relay)];
      }
    }
  }

  lemma LayoutIndices(r: Readers, vars: Variables, rows: seq<NativeGroup>, observed: bool, outlets: seq<Outlet>,
                      groups: seq<OutletGroup>)
    requires Layout(r, vars, rows, observed, outlets, groups)
    ensures |outlets| <= MAX_OUTLETS && forall i :: 0 <= i < |outlets| ==> outlets[i].index == i + 1
  {
  }

  /** Maps one snapshot; nothing is substituted for absent, stale or malformed telemetry. */
  method FromSnapshot(r: Readers, snapshot: Snapshot, now: int, staleAfter: int) returns (state: ModelState)
    ensures fresh(state) && Observes(r, snapshot, now, staleAfter, state.Value())
  {
    hide Layout, NativeRows, StatusOf, BeeperOf, PowerOf, HasToken, FallbackOutlets, FallbackGroups, TelemetryAll;
    hide RelayAll, Telemetry;
    state := new ModelState();
    if snapshot.collectedAt == 0 || snapshot.variables.None? {
      state.availability := Unavailable;
      return;
    }
    if now < snapshot.collectedAt {
      state.availability := Unavailable;
      return;
    }
    var vars := snapshot.variables.value;
    if now - snapshot.collectedAt > staleAfter {
      state.availability := Stale;
    }
    state.InitializeObservedTopology(r, vars);
    ghost var outlets, groups := state.outlets, state.groups;
    LayoutIndices(r, vars, state.nativeGroups, state.topologyObserved, outlets, groups);
    if PowerSources(vars) != 1 {
      state.availability := Unavailable;
    }
    state.status := StatusOf(vars);
    state.beeper := BeeperOf(vars);
    state.power := PowerOf(r, vars);
    state.MapOutletTelemetry(r, vars);
    state.MapGroupRelayStates();
    assert Mapped(r, vars, state.Value(), outlets, groups);
  }

  // ---- What the observed topology means ---------------------------------------------------------

  /** Two outlets share a group exactly when they carry the same valid, non-empty group identifier. */
  ghost predicate SharesByIdentifier(v: View) {
    forall i, j :: 0 <= i < j < |v.outlets| ==>
      (v.outlets[i].relayGroup == v.outlets[j].relayGroup <==>
       v.outlets[i].nativeGroupID != "" && v.outlets[i].nativeGroupID == v.outlets[j].nativeGroupID)
  }

  /** The groups partition the outlets: each outlet is listed by its own group and by no other, and no group is empty. */
  ghost predicate Partitions(v: View) {
    && (forall i :: 0 <= i < |v.outlets| ==> 1 <= v.outlets[i].relayGroup <= |v.groups|)
    && (forall k, p :: 0 <= k < |v.groups| ==>
          (p in v.groups[k].members <==> 1 <= p <= |v.outlets| && v.outlets[p - 1].relayGroup == k + 1))
    && (forall k :: 0 <= k < |v.groups| ==> v.groups[k].members != [])
  }

  /** A source index names the one row that carries the identifier of the group. */
  ghost predicate SourcesInRange(v: View) {
    forall k :: 0 <= k < |v.groups| && v.groups[k].sourceIndex != 0 ==>
      var g := v.groups[k];
      && 1 <= g.sourceIndex <= |v.nativeGroups| && g.nativeID != "" && Count(v.nativeGroups, g.nativeID) == 1
      && v.nativeGroups[g.sourceIndex - 1].nativeID == g.nativeID
  }

  ghost predicate NoContradiction(v: View) {
    forall k, p :: 0 <= k < |v.groups| && p in v.groups[k].members && 1 <= p <= |v.outlets| ==>
      var s, o := v.groups[k].relay, v.outlets[p - 1].relay;
      (s == On || s == Off) && (o == On || o == Off) ==> o == s
  }

  /** Whatever a snapshot was mapped to: observed groups partition the outlets by group identifier, draw on existing rows
      only, and never contradict a member. */
  lemma GroupsAreSound(r: Readers, s: Snapshot, now: int, staleAfter: int, v: View)
    requires Observes(r, s, now, staleAfter, v) && v.topologyObserved
    ensures SharesByIdentifier(v) && Partitions(v) && SourcesInRange(v) && NoContradiction(v)
  {
    hide Mapped, NativeRows, SharesByIdentifier, Partitions, SourcesInRange, NoContradiction, StatusOf, BeeperOf;
    hide PowerOf;
    var vars := s.variables.value;
    var outlets, groups :| Mapped(r, vars, v, outlets, groups);
    MappedGroupsAreSound(r, vars, v, outlets, groups);
  }

  lemma MappedGroupsAreSound(r: Readers, vars: Variables, v: View, outlets: seq<Outlet>, groups: seq<OutletGroup>)
    requires Mapped(r, vars, v, outlets, groups) && v.topologyObserved && v.nativeGroups == NativeRows(r, vars)
    ensures SharesByIdentifier(v) && Partitions(v) && SourcesInRange(v) && NoContradiction(v)
  {
    hide FirstOccurrence, Positions, Highest, Telemetry, GroupRelay, NativeRows, ObservedCount, GroupID, Numbers;
    var count := ObservedCount(r, vars).value;
    var ids := GroupIDs(vars, count);
    var numbers := Numbers(KeysOf(ids));
    NumbersAreGood(KeysOf(ids));
    OutletsKeepNumbers(r, vars, v, outlets, groups, numbers);
    SharingFollows(ids, numbers, v);
    PartitionFollows(numbers, groups, v);
    forall k | 0 <= k < |v.groups| && v.groups[k].sourceIndex != 0
      ensures 1 <= v.groups[k].sourceIndex <= |v.nativeGroups| && v.groups[k].nativeID != "" &&
              Count(v.nativeGroups, v.groups[k].nativeID) == 1 &&
              v.nativeGroups[v.groups[k].sourceIndex - 1].nativeID == v.groups[k].nativeID
    {
      SourceFollows(r, vars, v.nativeGroups, groups[k]);
    }
    forall k, p | 0 <= k < |v.groups| && p in v.groups[k].members && 1 <= p <= |v.outlets| &&
                  (v.groups[k].relay == On || v.groups[k].relay == Off)
      ensures v.outlets[p - 1].relay == On || v.outlets[p - 1].relay == Off ==> v.outlets[p - 1].relay == v.groups[k].relay
    {
      GroupNeverContradicts(groups[k], v.outlets, v.nativeGroups, p);
    }
  }

  lemma OutletsKeepNumbers(r: Readers, vars: Variables, v: View, outlets: seq<Outlet>, groups: seq<OutletGroup>,
                           numbers: seq<int>)
    requires Mapped(r, vars, v, outlets, groups) && |numbers| <= MAX_OUTLETS && outlets == NumberedOutlets(vars, numbers)
    ensures |v.outlets| == |numbers|
    ensures forall i :: 0 <= i < |numbers| ==>
              v.outlets[i].relayGroup == numbers[i] && v.outlets[i].nativeGroupID == GroupID(vars, i + 1) && v.outlets[i].index == i + 1
  {
  }

  lemma SharingFollows(ids: seq<string>, numbers: seq<int>, v: View)
    requires |ids| == |numbers| == |v.outlets| && SameKeySameNumber(KeysOf(ids), numbers)
    requires forall i :: 0 <= i < |ids| ==> v.outlets[i].relayGroup == numbers[i] && v.outlets[i].nativeGroupID == ids[i]
    ensures SharesByIdentifier(v)
  {
    forall i, j | 0 <= i < j < |ids|
      ensures numbers[i] == numbers[j] <==> ids[i] != "" && ids[i] == ids[j]
    {
      assert KeysOf(ids)[i] == KeyOf(ids[i], i + 1) && KeysOf(ids)[j] == KeyOf(ids[j], j + 1);
    }
  }

  lemma NumberIsUsed(numbers: seq<int>, g: int)
    requires FirstOccurrence(numbers) && 1 <= g <= Highest(numbers)
    ensures Positions(numbers, g) != []
  {
    hide FirstOccurrence, Positions;
    AllUsed(numbers, g);
    var i :| 0 <= i < |numbers| && numbers[i] == g;
    PositionsAre(numbers, g);
    assert i + 1 in Positions(numbers, g);
  }

  lemma NumberInRange(numbers: seq<int>, i: nat)
    requires FirstOccurrence(numbers) && i < |numbers|
    ensures 1 <= numbers[i] <= Highest(numbers)
  {
    HighestBounds(numbers);
  }

  lemma PartitionFollows(numbers: seq<int>, groups: seq<OutletGroup>, v: View)
    requires FirstOccurrence(numbers) && MembersFit(numbers, groups) && |groups| == Highest(numbers)
    requires |v.outlets| == |numbers| && forall i :: 0 <= i < |numbers| ==> v.outlets[i].relayGroup == numbers[i]
    requires |v.groups| == |groups| && forall k :: 0 <= k < |groups| ==> v.groups[k].members == groups[k].members
    ensures Partitions(v)
  {
    hide FirstOccurrence, Positions, Highest;
    forall i | 0 <= i < |v.outlets|
      ensures 1 <= v.outlets[i].relayGroup <= |v.groups|
    {
      NumberInRange(numbers, i);
    }
    forall k, p | 0 <= k < |v.groups|
      ensures p in v.groups[k].members <==> 1 <= p <= |v.outlets| && v.outlets[p - 1].relayGroup == k + 1
    {
      PositionsAre(numbers, k + 1);
    }
    forall k | 0 <= k < |v.groups|
      ensures v.groups[k].members != []
    {
      NumberIsUsed(numbers, k + 1);
    }
  }

  lemma SourceFollows(r: Readers, vars: Variables, rows: seq<NativeGroup>, g: OutletGroup)
    requires rows == NativeRows(r, vars) && Attached(rows, g) && g.sourceIndex != 0
    ensures 1 <= g.sourceIndex <= |rows| && g.nativeID != "" && Count(rows, g.nativeID) == 1 && rows[g.sourceIndex - 1].nativeID == g.nativeID
  {
    var row :| IsSource(rows, g, row);
    var i :| 0 <= i < |rows| && rows[i] == row;
    RowIndex(r, vars, i);
  }

  lemma RowIndex(r: Readers, vars: Variables, i: nat)
    requires i < |NativeRows(r, vars)|
    ensures NativeRows(r, vars)[i].sourceIndex == i + 1
  {
  }
}
