/** The power-device report: its projection from the canonical state, and the validator that re-checks it before it is
    sent. The projection of any NUT snapshot is accepted by the validator. */
module PowerReport {
  import opened Basics
  import opened Text
  import opened Numbering
  import opened OutletModel
  import opened OutletState

  const MAX_INT := 0x7fff_ffff_ffff_ffff

  // Outlet capability bits.
  const POWER_METER: bv32 := 0x2
  const CAP_AC: bv32 := 0x1_0000
  const CAP_USB: bv32 := 0x2_0000
  // Smart-power capability bits.
  const NUT_ACCESS: bv8 := 0x1
  const SAFE_SHUTDOWN: bv8 := 0x8

  datatype Profile = UPS2UPro | UPS26

  datatype Spec = Spec(outletCount: nat, smartPowerCaps: bv8, outletCaps: seq<bv32>)

  function SpecFor(p: Profile): (s: Spec)
    ensures |s.outletCaps| == s.outletCount
  {
    match p
    case UPS2UPro => Spec(9, 223, [65539, 65539, 65539, 65539, 65539, 65539, 65539, 65539, 65539])
    case UPS26 => Spec(8, 143, [65549, 65549, 65549, 65549, 65541, 65541, 65541, 65541])
  }

  datatype Source = FirmwareProfile | CarrierFallback | ObservedNUT

  datatype Row = Row(index: int, name: string, capabilities: Option<bv32>, relayGroup: int, relay: Option<bool>,
                     buttonGroup: int, buttonState: Option<bool>, voltage: Option<real>, current: Option<real>,
                     powerW: Option<int>, powerFactor: Option<real>,
                     energyDay: Option<real>, energyWeek: Option<real>, energyMonth: Option<real>)

  datatype Battery = Battery(available: Option<int>, ready: Option<int>, level: Option<int>, budget: Option<int>,
                             output: Option<real>, powerFactor: Option<real>, outputVoltage: Option<real>,
                             inputVoltage: Option<real>, outputCurrent: Option<real>, runtime: Option<int>,
                             charging: Option<bool>, onBattery: Option<bool>)

  const NO_BATTERY := Battery(None, None, None, None, None, None, None, None, None, None, None, None)

  /** headerOk stands for the checks of everything that does not come from NUT variables: adoption, identity, clock,
      interface and server advertisement. */
  datatype Report = Report(profile: Profile, source: Source, headerOk: bool, smartPower: Option<bv8>, beep: Option<bool>,
                           battery: Battery, outlets: seq<Row>)

  // ---- Validation -------------------------------------------------------------------------------

  predicate IntIn(v: Option<int>, low: int, high: int) {
    v.None? || low <= v.value <= high
  }

  predicate RealIn(v: Option<real>, low: real, high: real) {
    v.None? || low <= v.value <= high
  }

  predicate NonNegative(v: Option<real>) {
    v.None? || 0.0 <= v.value
  }

  /** Nothing but what a projection may claim, and exactly one physical kind. */
  predicate ProjectedCaps(source: Source, c: bv32) {
    && c & !(if source == CarrierFallback then CAP_AC else POWER_METER | CAP_AC | CAP_USB) == 0
    && (c & (CAP_AC | CAP_USB) == CAP_AC || c & (CAP_AC | CAP_USB) == CAP_USB)
  }

  predicate Metered(c: bv32) {
    c & POWER_METER != 0
  }

  predicate ProjectedRowOk(source: Source, row: Row) {
    && row.index != 0 && row.capabilities.Some? && ProjectedCaps(source, row.capabilities.value)
    && row.buttonGroup == 0 && row.buttonState.None?
    && (row.current.Some? || row.powerW.Some? ==> Metered(row.capabilities.value))
    && row.energyDay.None? && row.energyWeek.None? && row.energyMonth.None?
    && (source == CarrierFallback ==>
          row.capabilities == Some(CAP_AC) && row.relay.None? && row.voltage.None? && row.current.None? && row.powerW.None? && row.powerFactor.None?)
  }

  predicate ProfileRowOk(p: Profile, i: nat, row: Row)
    requires i < |SpecFor(p).outletCaps|
  {
    && (row.capabilities.Some? ==> row.capabilities.value == SpecFor(p).outletCaps[i])
    && match p
       case UPS2UPro => row.relayGroup == i + 1 && row.buttonGroup == i + 1
       case UPS26 =>
         && row.relayGroup == i / 4 + 1 && row.buttonGroup == (if i < 4 then 1 else 0) && (i >= 4 ==> row.buttonState.None?)
         && row.voltage.None? && row.current.None? && row.powerW.None? && row.powerFactor.None?
         && row.energyDay.None? && row.energyWeek.None? && row.energyMonth.None?
  }

  /** The checks of one row that do not involve other rows. */
  predicate RowOk(p: Profile, source: Source, count: nat, i: nat, row: Row)
    requires source == FirmwareProfile ==> i < |SpecFor(p).outletCaps|
  {
    && ValidConfigValue(row.name, 128)
    && IntIn(row.powerW, 0, MAX_INT) && 1 <= row.relayGroup <= count && 0 <= row.buttonGroup <= count
    && RealIn(row.powerFactor, 0.0, 1.0)
    && (if row.index == 0 then i + 1 else row.index) == i + 1
    && (if source == FirmwareProfile then ProfileRowOk(p, i, row) else ProjectedRowOk(source, row))
    && NonNegative(row.voltage) && NonNegative(row.current)
    && NonNegative(row.energyDay) && NonNegative(row.energyWeek) && NonNegative(row.energyMonth)
  }

  function RowGroups(rows: seq<Row>): (numbers: seq<int>)
    ensures |numbers| == |rows|
    ensures forall i :: 0 <= i < |rows| ==> numbers[i] == rows[i].relayGroup
  {
    seq(|rows|, i requires 0 <= i < |rows| => rows[i].relayGroup)
  }

  ghost predicate OneStatePerGroup(rows: seq<Row>) {
    forall i, j :: 0 <= i < j < |rows| && rows[i].relayGroup == rows[j].relayGroup ==> rows[i].relay == rows[j].relay
  }

  /** What a valid outlet table is: every row valid by itself and, unless it is firmware reference data, groups dense in
      first-occurrence order with one relay state each. */
  ghost predicate TableOk(p: Profile, source: Source, rows: seq<Row>) {
    && (source == FirmwareProfile ==> |rows| == |SpecFor(p).outletCaps|)
    && (forall i :: 0 <= i < |rows| ==> RowOk(p, source, |rows|, i, rows[i]))
    && (source != FirmwareProfile ==> FirstOccurrence(RowGroups(rows)) && OneStatePerGroup(rows))
  }

  predicate CountOk(p: Profile, source: Source, count: nat) {
    if source == ObservedNUT then 1 <= count <= MAX_OUTLETS else count == SpecFor(p).outletCount
  }

  predicate BatteryOk(b: Battery) {
    && IntIn(b.available, 0, MAX_INT) && IntIn(b.ready, 0, MAX_INT) && IntIn(b.level, 0, 100) && IntIn(b.budget, 0, MAX_INT)
    && (b.available.Some? && b.ready.Some? ==> b.ready.value <= b.available.value)
    && IntIn(b.runtime, 0, 2_678_400)
    && NonNegative(b.output) && NonNegative(b.outputVoltage) && NonNegative(b.inputVoltage) && NonNegative(b.outputCurrent)
    && RealIn(b.powerFactor, 0.0, 1.0)
  }

  ghost predicate ReportOk(r: Report) {
    && r.headerOk && BatteryOk(r.battery) && CountOk(r.profile, r.source, |r.outlets|)
    && (r.smartPower.Some? ==> r.smartPower.value & !SpecFor(r.profile).smartPowerCaps == 0)
    && TableOk(r.profile, r.source, r.outlets)
  }

  /** The groups and group states the validation loop has seen in a prefix of the rows. */
  ghost predicate Seen(rows: seq<Row>, observed: set<int>, states: map<int, Option<bool>>, next: int) {
    && next == Highest(RowGroups(rows)) + 1 && FirstOccurrence(RowGroups(rows)) && OneStatePerGroup(rows)
    && Recorded(rows, observed, states)
  }

  lemma RowGroupsAppend(rows: seq<Row>, row: Row)
    ensures RowGroups(rows + [row]) == RowGroups(rows) + [row.relayGroup]
  {
  }

  /** The two cross-row checks of a row decide exactly whether the longer prefix is still in order. */
  lemma SeenNext(rows: seq<Row>, row: Row, observed: set<int>, states: map<int, Option<bool>>, next: int)
    requires Seen(rows, observed, states, next) && row.relayGroup >= 1
    ensures var dense := row.relayGroup in observed || row.relayGroup == next;
      var consistent := row.relayGroup in states ==> states[row.relayGroup] == row.relay;
      && (FirstOccurrence(RowGroups(rows + [row])) <==> dense)
      && (OneStatePerGroup(rows + [row]) <==> consistent)
      && (dense && consistent ==>
            Seen(rows + [row], observed + {row.relayGroup}, states[row.relayGroup := row.relay],
                 if row.relayGroup in observed then next else next + 1))
  {
    hide FirstOccurrence, OneStatePerGroup, Highest, RowGroups;
    var numbers, g := RowGroups(rows), row.relayGroup;
    RowGroupsAppend(rows, row);
    HighestAppend(numbers, g);
    DenseNext(numbers, g);
    ConsistentNext(rows, row, observed, states);
    if row.relayGroup in states ==> states[row.relayGroup] == row.relay {
      RecordedNext(rows, row, observed, states);
    }
  }

  ghost predicate Recorded(rows: seq<Row>, observed: set<int>, states: map<int, Option<bool>>) {
    && states.Keys == observed
    && (forall g :: g in observed <==> g in RowGroups(rows))
    && (forall i :: 0 <= i < |rows| ==> rows[i].relayGroup in states && states[rows[i].relayGroup] == rows[i].relay)
  }

  lemma RecordedNext(rows: seq<Row>, row: Row, observed: set<int>, states: map<int, Option<bool>>)
    requires Recorded(rows, observed, states) && (row.relayGroup in states ==> states[row.relayGroup] == row.relay)
    ensures Recorded(rows + [row], observed + {row.relayGroup}, states[row.relayGroup := row.relay])
  {
    RowGroupsAppend(rows, row);
    var all, g := rows + [row], row.relayGroup;
    forall i | 0 <= i < |all|
      ensures all[i].relayGroup in states[g := row.relay] && states[g := row.relay][all[i].relayGroup] == all[i].relay
    {
      assert i < |rows| ==> all[i] == rows[i];
    }
  }

  lemma DenseNext(numbers: seq<int>, g: int)
    requires FirstOccurrence(numbers) && g >= 1
    ensures FirstOccurrence(numbers + [g]) <==> g in numbers || g == Highest(numbers) + 1
    ensures g in numbers ==> g <= Highest(numbers)
  {
    HighestBounds(numbers);
    if 1 <= g <= Highest(numbers) {
      AllUsed(numbers, g);
    }
    if g <= Highest(numbers) + 1 {
      FirstOccurrenceAppend(numbers, g);
    } else {
      assert (numbers + [g])[|numbers|] == g && (numbers + [g])[..|numbers|] == numbers;
    }
  }

  lemma ConsistentNext(rows: seq<Row>, row: Row, observed: set<int>, states: map<int, Option<bool>>)
    requires OneStatePerGroup(rows) && Recorded(rows, observed, states)
    ensures OneStatePerGroup(rows + [row]) <==> (row.relayGroup in states ==> states[row.relayGroup] == row.relay)
  {
    var all := rows + [row];
    if row.relayGroup in states {
      var i :| 0 <= i < |rows| && RowGroups(rows)[i] == row.relayGroup;
      assert all[i].relayGroup == all[|rows|].relayGroup;
    }
  }

  lemma PrefixFails(p: Profile, source: Source, rows: seq<Row>, k: nat)
    requires k <= |rows| && source != FirmwareProfile
    requires !FirstOccurrence(RowGroups(rows[..k])) || !OneStatePerGroup(rows[..k])
    ensures !TableOk(p, source, rows)
  {
    if FirstOccurrence(RowGroups(rows)) && OneStatePerGroup(rows) {
      FirstOccurrencePrefix(RowGroups(rows), k);
      assert RowGroups(rows)[..k] == RowGroups(rows[..k]);
      assert OneStatePerGroup(rows[..k]);
      assert false;
    }
  }

  /** The outlet loop of the validator accepts exactly the valid tables. */
  method ValidateOutlets(p: Profile, source: Source, rows: seq<Row>) returns (ok: bool)
    requires source == FirmwareProfile ==> |rows| == |SpecFor(p).outletCaps|
    ensures ok <==> TableOk(p, source, rows)
  {
    var observedGroups: set<int>, observedGroupRelayState: map<int, Option<bool>> := {}, map[];
    var nextObservedGroup := 1;
    hide RowOk, Seen, FirstOccurrence, OneStatePerGroup, Highest, RowGroups;
    assert rows[..0] == [];
    SeenNothing();
    for i := 0 to |rows|
      invariant forall j :: 0 <= j < i ==> RowOk(p, source, |rows|, j, rows[j])
      invariant source != FirmwareProfile ==> Seen(rows[..i], observedGroups, observedGroupRelayState, nextObservedGroup)
    {
      var outlet := rows[i];
      if !RowOk(p, source, |rows|, i, outlet) {
        return false;
      }
      if source != FirmwareProfile {
        RowHasGroup(p, source, |rows|, i, outlet);
        SeenNext(rows[..i], outlet, observedGroups, observedGroupRelayState, nextObservedGroup);
        SeenGroups(rows[..i], observedGroups, observedGroupRelayState, nextObservedGroup);
        assert rows[..i + 1] == rows[..i] + [outlet];
        if outlet.relayGroup !in observedGroups && outlet.relayGroup != nextObservedGroup {
          PrefixFails(p, source, rows, i + 1);
          return false;
        }
        if outlet.relayGroup in observedGroupRelayState && observedGroupRelayState[outlet.relayGroup] != outlet.relay {
          PrefixFails(p, source, rows, i + 1);
          return false;
        }
        if outlet.relayGroup !in observedGroups {
          nextObservedGroup := nextObservedGroup + 1;
        }
        observedGroups := observedGroups + {outlet.relayGroup};
        observedGroupRelayState := observedGroupRelayState[outlet.relayGroup := outlet.relay];
      }
    }
    assert rows[..|rows|] == rows;
    if source != FirmwareProfile {
      SeenAll(rows, observedGroups, observedGroupRelayState, nextObservedGroup);
    }
    return true;
  }

  lemma SeenNothing()
    ensures Seen([], {}, map[], 1)
  {
  }

  lemma SeenGroups(rows: seq<Row>, observed: set<int>, states: map<int, Option<bool>>, next: int)
    requires Seen(rows, observed, states, next)
    ensures states.Keys == observed
  {
  }

  lemma SeenAll(rows: seq<Row>, observed: set<int>, states: map<int, Option<bool>>, next: int)
    requires Seen(rows, observed, states, next)
    ensures FirstOccurrence(RowGroups(rows)) && OneStatePerGroup(rows)
  {
  }

  lemma RowHasGroup(p: Profile, source: Source, count: nat, i: nat, row: Row)
    requires source != FirmwareProfile && RowOk(p, source, count, i, row)
    ensures row.relayGroup >= 1
  {
  }

  method ValidateReport(r: Report) returns (ok: bool)
    ensures ok <==> ReportOk(r)
  {
    if !r.headerOk || !BatteryOk(r.battery) || !CountOk(r.profile, r.source, |r.outlets|) {
      return false;
    }
    if r.smartPower.Some? && r.smartPower.value & !SpecFor(r.profile).smartPowerCaps != 0 {
      return false;
    }
    ok := ValidateOutlets(r.profile, r.source, r.outlets);
  }

  // ---- Projection -------------------------------------------------------------------------------

  /** math.Round, half away from zero. */
  function Rounded(v: real): int {
    if v >= 0.0 then (v + 0.5).Floor else -((-v + 0.5).Floor)
  }

  function Known(m: Measurement): Option<real> {
    if m.known then Some(m.value) else None
  }

  function BareRow(index: int, name: string, capabilities: bv32, relayGroup: int): Row {
    Row(index, name, Some(capabilities), relayGroup, None, 0, None, None, None, None, None, None, None, None)
  }

  function ObservedRow(o: Outlet): Row {
    var physical := if o.kind == USB then CAP_USB else CAP_AC;
    BareRow(o.index, o.name, if o.powerMeter then physical | POWER_METER else physical, o.relayGroup)
  }

  function FallbackRow(p: Profile, v: View, i: nat): Row
    requires i < 9
  {
    var name := if i < |v.outlets| then v.outlets[i].name else OutletName(i + 1);
    var group := if i < |v.outlets| then v.outlets[i].relayGroup else i / 4 + 1;
    BareRow(i + 1, name, CAP_AC, if p == UPS2UPro then i + 1 else group)
  }

  function TopologyRows(p: Profile, v: View): seq<Row> {
    if v.topologyObserved then seq(|v.outlets|, i requires 0 <= i < |v.outlets| => ObservedRow(v.outlets[i]))
    else
      var count := if p == UPS2UPro then 9 else 8;
      seq(count, i requires 0 <= i < count => FallbackRow(p, v, i))
  }

  function RelayText(s: RelayState): Option<bool> {
    match s
    case On => Some(true)
    case Off => Some(false)
    case _ => None
  }

  /** Electrical values of the outlet, and the state of its group in place of its own. */
  function WithTelemetry(row: Row, v: View, o: Outlet): Row {
    var relay := if 1 <= o.relayGroup <= |v.groups| then v.groups[o.relayGroup - 1].relay else o.relay;
    row.(relay := if RelayText(relay).Some? then RelayText(relay) else row.relay,
         voltage := if o.voltage.known then Known(o.voltage) else row.voltage,
         current := if o.current.known then Known(o.current) else row.current,
         powerW := if o.powerW.known then Some(Rounded(o.powerW.value)) else row.powerW,
         powerFactor := if o.powerFactor.known && 0.0 <= o.powerFactor.value <= 1.0 then Known(o.powerFactor) else row.powerFactor)
  }

  function TelemetryRows(rows: seq<Row>, v: View): (mapped: seq<Row>)
    ensures |mapped| == |rows|
  {
    if !v.topologyObserved then rows
    else seq(|rows|, i requires 0 <= i < |rows| => if i < |v.outlets| then WithTelemetry(rows[i], v, v.outlets[i]) else rows[i])
  }

  function ProjectBattery(v: View): Battery {
    var p := v.power;
    var one := if p.chargePercent.known then Some(1) else None;
    var budget := Rounded(p.outputNominal.value);
    Battery(one, one, if p.chargePercent.known then Some(Rounded(p.chargePercent.value)) else None,
            if p.outputNominal.known && p.outputNominal.value > 0.0 && budget > 0 then Some(budget) else None,
            Known(p.outputPower), if p.powerFactor.known && 0.0 <= p.powerFactor.value <= 1.0 then Known(p.powerFactor) else None,
            Known(p.outputVoltage), Known(p.inputVoltage), Known(p.outputCurrent),
            if p.runtime.known then Some(Rounded(p.runtime.value)) else None,
            if v.status.charging.known then Some(v.status.charging.value) else None,
            if v.status.onBattery.known then Some(v.status.onBattery.value) else None)
  }

  function SmartPower(p: Profile, nutServer: bool): bv8 {
    var caps := SpecFor(p).smartPowerCaps & (NUT_ACCESS | SAFE_SHUTDOWN);
    if nutServer then caps else caps & !NUT_ACCESS
  }

  function BeepText(b: Beeper): Option<bool> {
    if b == BeeperEnabled then Some(true) else if b == BeeperDisabled then Some(false) else None
  }

  /** The report of a state; measurements of a stale or unusable observation are never projected. */
  function Projection(p: Profile, nutServer: bool, headerOk: bool, v: View): Report {
    var source := if v.topologyObserved then ObservedNUT else CarrierFallback;
    if v.availability != Available then
      Report(p, source, headerOk, Some(SmartPower(p, nutServer)), None, NO_BATTERY, TopologyRows(p, v))
    else
      Report(p, source, headerOk, Some(SmartPower(p, nutServer)), BeepText(v.beeper), ProjectBattery(v), TelemetryRows(TopologyRows(p, v), v))
  }

  method ProjectOutletTopology(p: Profile, v: View) returns (rows: array<Row>)
    ensures fresh(rows) && rows[..] == TopologyRows(p, v)
  {
    var blank := BareRow(0, "", 0, 0);
    if v.topologyObserved {
      rows := new Row[|v.outlets|](i => blank);
      for offset := 0 to rows.Length
        invariant forall j :: 0 <= j < offset ==> rows[j] == ObservedRow(v.outlets[j])
      {
        var source := v.outlets[offset];
        var capabilities := CAP_AC;
        if source.kind == USB {
          capabilities := CAP_USB;
        }
        if source.powerMeter {
          capabilities := capabilities | POWER_METER;
        }
        rows[offset] := BareRow(source.index, source.name, capabilities, source.relayGroup);
      }
      return;
    }
    var count := 8;
    if p == UPS2UPro {
      count := 9;
    }
    rows := new Row[count](i => blank);
    for index := 0 to count
      invariant forall j :: 0 <= j < index ==> rows[j] == FallbackRow(p, v, j)
    {
      var group := index / 4 + 1;
      var name := OutletName(index + 1);
      if index < |v.outlets| {
        group := v.outlets[index].relayGroup;
        name := v.outlets[index].name;
      }
      if p == UPS2UPro {
        group := index + 1;
      }
      rows[index] := BareRow(index + 1, name, CAP_AC, group);
    }
  }

  /** What one outlet adds to its row. */
  method AddTelemetry(before: Row, v: View, source: Outlet) returns (row: Row)
    ensures row == WithTelemetry(before, v, source)
  {
    hide Rounded;
    var relay := source.relay;
    if 1 <= source.relayGroup <= |v.groups| {
      relay := v.groups[source.relayGroup - 1].relay;
    }
    row := before;
    if relay == On {
      row := row.(relay := Some(true));
    } else if relay == Off {
      row := row.(relay := Some(false));
    }
    ghost var relayed := before.(relay := if RelayText(relay).Some? then RelayText(relay) else before.relay);
    assert row == relayed;
    if source.voltage.known {
      row := row.(voltage := Some(source.voltage.value));
    }
    if source.current.known {
      row := row.(current := Some(source.current.value));
    }
    assert row == relayed.(voltage := if source.voltage.known then Known(source.voltage) else before.voltage,
                           current := if source.current.known then Known(source.current) else before.current);
    if source.powerW.known {
      row := row.(powerW := Some(Rounded(source.powerW.value)));
    }
    if source.powerFactor.known && 0.0 <= source.powerFactor.value <= 1.0 {
      row := row.(powerFactor := Some(source.powerFactor.value));
    }
  }

  /** Writes the telemetry into the rows in place. */
  method ProjectAvailableOutletTelemetry(rows: array<Row>, v: View)
    modifies rows
    ensures rows[..] == TelemetryRows(old(rows[..]), v)
  {
    hide WithTelemetry;
    ghost var before := rows[..];
    if !v.topologyObserved {
      return;
    }
    for index := 0 to rows.Length
      invariant forall j :: 0 <= j < index ==>
        rows[j] == if j < |v.outlets| then WithTelemetry(before[j], v, v.outlets[j]) else before[j]
      invariant forall j :: index <= j < rows.Length ==> rows[j] == before[j]
    {
      if index < |v.outlets| {
        var row := AddTelemetry(rows[index], v, v.outlets[index]);
        rows[index] := row;
      }
    }
  }

  method ProjectPowerDevice(p: Profile, nutServer: bool, headerOk: bool, v: View) returns (report: Report)
    ensures report == Projection(p, nutServer, headerOk, v)
  {
    var smartPower := SpecFor(p).smartPowerCaps & (NUT_ACCESS | SAFE_SHUTDOWN);
    if !nutServer {
      smartPower := smartPower & !NUT_ACCESS;
    }
    var rows := ProjectOutletTopology(p, v);
    var source := if v.topologyObserved then ObservedNUT else CarrierFallback;
    if v.availability != Available {
      return Report(p, source, headerOk, Some(smartPower), None, NO_BATTERY, rows[..]);
    }
    ProjectAvailableOutletTelemetry(rows, v);
    report := Report(p, source, headerOk, Some(smartPower), BeepText(v.beeper), ProjectBattery(v), rows[..]);
  }

  // ---- The projection is always valid -----------------------------------------------------------

  lemma {:induction false} HighestAtMostLength(numbers: seq<int>)
    requires FirstOccurrence(numbers)
    ensures Highest(numbers) <= |numbers|
  {
    if numbers != [] {
      var before := numbers[..|numbers| - 1];
      FirstOccurrencePrefix(numbers, |before|);
      HighestAtMostLength(before);
    }
  }

  /** What the mapping guarantees of each outlet, whatever the variables say. */
  ghost predicate OutletSane(o: Outlet, i: nat) {
    && o.index == i + 1 && ValidConfigValue(o.name, 128)
    && (o.current.known ==> o.powerMeter && 0.0 <= o.current.value) && (o.voltage.known ==> 0.0 <= o.voltage.value)
    && (o.powerW.known ==> o.powerMeter && 0.0 <= o.powerW.value <= MAX_POWER)
  }

  lemma TelemetryIsSane(r: Readers, vars: Variables, groups: seq<OutletGroup>, o: Outlet, i: nat)
    requires o.index == i + 1 < 100 && ValidConfigValue(o.name, 128)
    ensures OutletSane(Telemetry(r, vars, groups, o), i) && Telemetry(r, vars, groups, o).relayGroup == o.relayGroup
  {
  }

  lemma MappedIsSane(r: Readers, vars: Variables, v: View, outlets: seq<Outlet>, groups: seq<OutletGroup>)
    requires Mapped(r, vars, v, outlets, groups)
    ensures |v.outlets| == |outlets|
    ensures forall i :: 0 <= i < |v.outlets| ==> OutletSane(v.outlets[i], i) && v.outlets[i].relayGroup == outlets[i].relayGroup
  {
    forall i | 0 <= i < |v.outlets|
      ensures OutletSane(v.outlets[i], i) && v.outlets[i].relayGroup == outlets[i].relayGroup
    {
      NamedOutlet(r, vars, v, outlets, groups, i);
      TelemetryIsSane(r, vars, groups, outlets[i], i);
    }
  }

  lemma NamedOutlet(r: Readers, vars: Variables, v: View, outlets: seq<Outlet>, groups: seq<OutletGroup>, i: nat)
    requires Layout(r, vars, v.nativeGroups, v.topologyObserved, outlets, groups) && i < |outlets|
    ensures outlets[i].index == i + 1 < 100 && ValidConfigValue(outlets[i].name, 128)
  {
  }

  /** Rows made from sane, densely numbered outlets form a valid observed table, with or without telemetry. */
  lemma ObservedTableOk(p: Profile, v: View, rows: seq<Row>)
    requires v.topologyObserved && |v.outlets| == |rows|
    requires forall i :: 0 <= i < |v.outlets| ==> OutletSane(v.outlets[i], i)
    requires FirstOccurrence(OutletGroups(v.outlets)) && |v.groups| == Highest(OutletGroups(v.outlets))
    requires (forall i :: 0 <= i < |rows| ==> rows[i] == ObservedRow(v.outlets[i])) ||
             (forall i :: 0 <= i < |rows| ==> rows[i] == WithTelemetry(ObservedRow(v.outlets[i]), v, v.outlets[i]))
    ensures TableOk(p, ObservedNUT, rows)
  {
    hide RowOk, FirstOccurrence, Highest, OutletSane, ObservedRow, WithTelemetry, RelayText;
    var numbers := OutletGroups(v.outlets);
    var plain := forall i :: 0 <= i < |rows| ==> rows[i] == ObservedRow(v.outlets[i]);
    HighestAtMostLength(numbers);
    forall i | 0 <= i < |rows|
      ensures RowOk(p, ObservedNUT, |rows|, i, rows[i]) && rows[i].relayGroup == numbers[i] && 1 <= numbers[i] <= |v.groups|
      ensures rows[i].relay == if plain then None else RelayText(v.groups[numbers[i] - 1].relay)
    {
      NumberInRange(numbers, i);
      ObservedRowOk(p, v, |rows|, v.outlets[i], i);
    }
    assert RowGroups(rows) == numbers;
  }

  function OutletGroups(outlets: seq<Outlet>): (numbers: seq<int>)
    ensures |numbers| == |outlets|
    ensures forall i :: 0 <= i < |outlets| ==> numbers[i] == outlets[i].relayGroup
  {
    seq(|outlets|, i requires 0 <= i < |outlets| => outlets[i].relayGroup)
  }

  lemma ObservedRowOk(p: Profile, v: View, count: nat, o: Outlet, i: nat)
    requires OutletSane(o, i) && 1 <= o.relayGroup <= |v.groups| <= count
    ensures RowOk(p, ObservedNUT, count, i, ObservedRow(o))
    ensures RowOk(p, ObservedNUT, count, i, WithTelemetry(ObservedRow(o), v, o))
    ensures WithTelemetry(ObservedRow(o), v, o).relay == RelayText(v.groups[o.relayGroup - 1].relay) && ObservedRow(o).relay == None
    ensures WithTelemetry(ObservedRow(o), v, o).relayGroup == o.relayGroup == ObservedRow(o).relayGroup
  {
    CapabilityBits(CAP_AC);
    CapabilityBits(CAP_USB);
    RoundedInRange(o.powerW.value, 1_000_000_000);
  }

  lemma CapabilityBits(c: bv32)
    requires c == CAP_AC || c == CAP_USB
    ensures c & !(POWER_METER | CAP_AC | CAP_USB) == 0 && (c | POWER_METER) & !(POWER_METER | CAP_AC | CAP_USB) == 0
    ensures c & (CAP_AC | CAP_USB) == c && (c | POWER_METER) & (CAP_AC | CAP_USB) == c && (c | POWER_METER) & POWER_METER != 0
    ensures c & !c == 0
  {
  }

  lemma RoundedInRange(v: real, high: int)
    ensures 0.0 <= v <= high as real ==> 0 <= Rounded(v) <= high
  {
  }

  lemma FallbackTableOk(p: Profile, v: View)
    requires !v.topologyObserved && |v.outlets| == 8
    requires forall i :: 0 <= i < 8 ==> ValidConfigValue(v.outlets[i].name, 128) && v.outlets[i].relayGroup == i / 4 + 1
    ensures TableOk(p, CarrierFallback, TopologyRows(p, v))
  {
    hide RowOk, FallbackRow, FirstOccurrence;
    var rows := TopologyRows(p, v);
    forall i | 0 <= i < |rows|
      ensures RowOk(p, CarrierFallback, |rows|, i, rows[i]) && rows[i].relay == None
      ensures rows[i].relayGroup == if p == UPS2UPro then i + 1 else i / 4 + 1
    {
      FallbackRowOk(p, v, i);
    }
    if p == UPS2UPro {
      assert RowGroups(rows) == Counting(9);
      Ascending(9);
    } else {
      assert RowGroups(rows) == [1, 1, 1, 1, 2, 2, 2, 2];
      TwoZones();
    }
  }

  lemma FallbackRowOk(p: Profile, v: View, i: nat)
    requires |v.outlets| == 8 && i < if p == UPS2UPro then 9 else 8
    requires forall j :: 0 <= j < 8 ==> ValidConfigValue(v.outlets[j].name, 128) && v.outlets[j].relayGroup == j / 4 + 1
    ensures var row := FallbackRow(p, v, i);
      RowOk(p, CarrierFallback, if p == UPS2UPro then 9 else 8, i, row) && row.relay == None
      && row.relayGroup == if p == UPS2UPro then i + 1 else i / 4 + 1
  {
    CapabilityBits(CAP_AC);
  }

  function Counting(n: nat): (numbers: seq<int>)
    ensures |numbers| == n
    ensures forall i :: 0 <= i < n ==> numbers[i] == i + 1
  {
    seq(n, i => i + 1)
  }

  lemma Ascending(n: nat)
    ensures FirstOccurrence(Counting(n)) && Highest(Counting(n)) == n
  {
    if n > 0 {
      Ascending(n - 1);
      assert Counting(n) == Counting(n - 1) + [n];
      FirstOccurrenceAppend(Counting(n - 1), n);
      HighestAppend(Counting(n - 1), n);
    }
  }

  lemma TwoZones()
    ensures FirstOccurrence([1, 1, 1, 1, 2, 2, 2, 2])
  {
    Zones(4, 4);
    assert Zoned(4, 4) == [1, 1, 1, 1, 2, 2, 2, 2];
  }

  function Zoned(ones: nat, twos: nat): (numbers: seq<int>)
    ensures |numbers| == ones + twos
    ensures forall i :: 0 <= i < |numbers| ==> numbers[i] == if i < ones then 1 else 2
  {
    seq(ones + twos, i => if i < ones then 1 else 2)
  }

  lemma NoNumbers()
    ensures FirstOccurrence([]) && Highest([]) == 0
  {
  }

  lemma {:induction false} Zones(ones: nat, twos: nat)
    requires ones > 0
    ensures FirstOccurrence(Zoned(ones, twos)) && Highest(Zoned(ones, twos)) == if twos == 0 then 1 else 2
    decreases ones + twos
  {
    hide FirstOccurrence, Highest;
    NoNumbers();
    var last := if twos == 0 then 1 else 2;
    var before := if twos > 0 then Zoned(ones, twos - 1) else Zoned(ones - 1, 0);
    if twos > 0 {
      Zones(ones, twos - 1);
    } else if ones > 1 {
      Zones(ones - 1, 0);
    } else {
      assert before == [];
    }
    FirstOccurrenceAppend(before, last);
    HighestAppend(before, last);
    assert Zoned(ones, twos) == before + [last];
  }

  lemma BatteryIsOk(v: View)
    requires PowerInRange(v.power)
    ensures BatteryOk(ProjectBattery(v))
  {
    RoundedInRange(v.power.chargePercent.value, 100);
    RoundedInRange(v.power.runtime.value, 2_678_400);
    RoundedInRange(v.power.outputNominal.value, 1_000_000_000);
  }

  lemma PowerIsInRange(r: Readers, vars: Variables)
    ensures PowerInRange(PowerOf(r, vars))
  {
  }

  lemma NothingIsOk()
    ensures BatteryOk(NO_BATTERY) && PowerInRange(NO_POWER)
  {
  }

  /** The fallback outlets keep their zones, whatever names they are given. */
  lemma FallbackFits(r: Readers, s: Snapshot, now: int, staleAfter: int, v: View)
    requires Observes(r, s, now, staleAfter, v) && !v.topologyObserved
    ensures |v.outlets| == 8
    ensures forall i :: 0 <= i < 8 ==> ValidConfigValue(v.outlets[i].name, 128) && v.outlets[i].relayGroup == i / 4 + 1
  {
    hide StatusOf, BeeperOf, PowerOf, NativeRows, AvailabilityOf, Topology, ValidConfigValue, GroupRelay;
    if s.collectedAt != 0 && s.variables.Some? && now >= s.collectedAt {
      var vars := s.variables.value;
      var outlets, groups :| Mapped(r, vars, v, outlets, groups);
      MappedIsSane(r, vars, v, outlets, groups);
    }
  }

  lemma ObservedFits(r: Readers, s: Snapshot, now: int, staleAfter: int, v: View)
    requires Observes(r, s, now, staleAfter, v) && v.topologyObserved
    ensures 1 <= |v.outlets| <= MAX_OUTLETS
    ensures forall i :: 0 <= i < |v.outlets| ==> OutletSane(v.outlets[i], i)
    ensures FirstOccurrence(OutletGroups(v.outlets)) && |v.groups| == Highest(OutletGroups(v.outlets))
  {
    hide FirstOccurrence, Highest, OutletSane, Mapped, PowerOf, StatusOf, BeeperOf, NativeRows, AvailabilityOf;
    var vars := s.variables.value;
    var outlets, groups :| Mapped(r, vars, v, outlets, groups);
    MappedIsSane(r, vars, v, outlets, groups);
    ObservedGroupsDense(r, vars, v, outlets, groups);
  }

  lemma ObservedPower(r: Readers, s: Snapshot, now: int, staleAfter: int, v: View)
    requires Observes(r, s, now, staleAfter, v)
    ensures PowerInRange(v.power)
  {
    NothingIsOk();
    if s.variables.Some? {
      PowerIsInRange(r, s.variables.value);
    }
  }

  lemma RowsAre(p: Profile, v: View)
    requires v.topologyObserved
    ensures var plain, full := TopologyRows(p, v), TelemetryRows(TopologyRows(p, v), v);
      && |plain| == |full| == |v.outlets|
      && (forall i :: 0 <= i < |plain| ==> plain[i] == ObservedRow(v.outlets[i]))
      && (forall i :: 0 <= i < |full| ==> full[i] == WithTelemetry(ObservedRow(v.outlets[i]), v, v.outlets[i]))
  {
  }

  lemma FallbackRowsAre(p: Profile, v: View)
    requires !v.topologyObserved
    ensures TelemetryRows(TopologyRows(p, v), v) == TopologyRows(p, v) && |TopologyRows(p, v)| == SpecFor(p).outletCount
  {
  }

  lemma SmartPowerIsSubset(p: Profile, nutServer: bool)
    ensures SmartPower(p, nutServer) & !SpecFor(p).smartPowerCaps == 0
  {
  }

  /** No NUT variable can make the validator refuse the report: for every snapshot and clock reading the projection of the
      mapped state is accepted exactly when the checks of everything that NUT does not supply pass. */
  lemma ProjectionIsAccepted(r: Readers, s: Snapshot, now: int, staleAfter: int, v: View, p: Profile, nutServer: bool,
                             headerOk: bool)
    ensures Observes(r, s, now, staleAfter, v) ==> (ReportOk(Projection(p, nutServer, headerOk, v)) <==> headerOk)
  {
    hide TableOk, BatteryOk, Observes, TopologyRows, TelemetryRows, ProjectBattery, PowerInRange, SmartPower;
    hide FirstOccurrence, Highest;
    if Observes(r, s, now, staleAfter, v) {
      ObservedPower(r, s, now, staleAfter, v);
      BatteryIsOk(v);
      NothingIsOk();
      SmartPowerIsSubset(p, nutServer);
      if v.topologyObserved {
        ObservedFits(r, s, now, staleAfter, v);
        RowsAre(p, v);
        ObservedTableOk(p, v, TopologyRows(p, v));
        ObservedTableOk(p, v, TelemetryRows(TopologyRows(p, v), v));
      } else {
        FallbackFits(r, s, now, staleAfter, v);
        FallbackRowsAre(p, v);
        FallbackTableOk(p, v);
      }
    }
  }

  lemma ObservedGroupsDense(r: Readers, vars: Variables, v: View, outlets: seq<Outlet>, groups: seq<OutletGroup>)
    requires Mapped(r, vars, v, outlets, groups) && v.topologyObserved
    requires |v.outlets| == |outlets| && forall i :: 0 <= i < |v.outlets| ==> v.outlets[i].relayGroup == outlets[i].relayGroup
    ensures 1 <= |v.outlets| <= MAX_OUTLETS
    ensures FirstOccurrence(OutletGroups(v.outlets)) && |v.groups| == Highest(OutletGroups(v.outlets))
  {
    hide FirstOccurrence, Highest, Numbers, Attached, Telemetry, GroupRelay, KeysOf;
    var numbers := Numbers(KeysOf(GroupIDs(vars, ObservedCount(r, vars).value)));
    NumbersAreGood(KeysOf(GroupIDs(vars, ObservedCount(r, vars).value)));
    assert OutletGroups(v.outlets) == numbers;
  }

  /** The three stages together: map, project, validate. */
  method ReportSnapshot(r: Readers, s: Snapshot, now: int, staleAfter: int, p: Profile, nutServer: bool, headerOk: bool)
      returns (accepted: bool)
    ensures accepted <==> headerOk
  {
    var state := FromSnapshot(r, s, now, staleAfter);
    var report := ProjectPowerDevice(p, nutServer, headerOk, state.Value());
    ProjectionIsAccepted(r, s, now, staleAfter, state.Value(), p, nutServer, headerOk);
    accepted := ValidateReport(report);
  }
}
