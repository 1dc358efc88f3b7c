/** From the texts of the NUT variables to the power report, end to end: which text makes a row, a group or a reading what
    it is in the report. Variables are named and words are spelled out here. */
module PowerTexts {
  import opened Basics
  import opened Text
  import opened Letters
  import opened Numbering
  import opened OutletModel
  import opened OutletState
  import opened PowerReport
  import Markers

  /** The text is this word, apart from letter case and surrounding white space. */
  predicate Reads(text: string, word: string) {
    Spells(Trim(text, true), word)
  }

  predicate Has(vars: Variables, key: string, word: string) {
    key in vars && Reads(vars[key], word)
  }

  function OutletVar(n: nat, field: string): string {
    "outlet." + Markers.Decimal(n) + "." + field
  }

  function GroupVar(n: nat, field: string): string {
    "outlet.group." + Markers.Decimal(n) + "." + field
  }

  lemma KeysAre(n: nat, field: string)
    requires n < 100
    ensures OutletKey(n, field) == OutletVar(n, field) && GroupKey(n, field) == GroupVar(n, field)
  {
    assert Decimal(n) == Markers.Decimal(n);
  }

  // ---- Relay texts ---------------------------------------------------------------------------------------

  lemma RelayReads(text: string)
    ensures ParseRelay(text) == On <==> Reads(text, "on")
    ensures ParseRelay(text) == Off <==> Reads(text, "off")
    ensures !(Reads(text, "on") && Reads(text, "off"))
  {
    hide LowerWord, Trim, Spells;
    SpellsExactly(Trim(text, true), "on");
    SpellsExactly(Trim(text, true), "off");
  }

  /** A snapshot that is looked at. */
  predicate Usable(s: Snapshot, now: int) {
    s.collectedAt != 0 && s.variables.Some? && s.collectedAt <= now
  }

  /** The n-th outlet says that it is on, or off. */
  predicate OutletSays(vars: Variables, n: nat, word: string) {
    Has(vars, OutletVar(n, "status"), word)
  }

  /** An outlet is on exactly when its status variable reads on, and off exactly when it reads off. */
  lemma OutletsExactly(r: Readers, s: Snapshot, now: int, staleAfter: int, v: View, i: nat)
    requires Observes(r, s, now, staleAfter, v) && Usable(s, now) && i < |v.outlets|
    ensures var vars := s.variables.value;
      && (v.outlets[i].relay == On <==> OutletSays(vars, i + 1, "on"))
      && (v.outlets[i].relay == Off <==> OutletSays(vars, i + 1, "off"))
      && v.outlets[i].relay != Mixed && v.outlets[i].index == i + 1
  {
    hide StatusOf, BeeperOf, PowerOf, NativeRows, AvailabilityOf, Telemetry, OutletSays, GroupRelay, TelemetryAll;
    var vars := s.variables.value;
    var outlets, groups :| Mapped(r, vars, v, outlets, groups);
    PlainBefore(r, vars, v, outlets, groups, i);
    OutletRelay(r, vars, groups, outlets[i], i + 1);
  }

  lemma PlainBefore(r: Readers, vars: Variables, v: View, outlets: seq<Outlet>, groups: seq<OutletGroup>, i: nat)
    requires Mapped(r, vars, v, outlets, groups) && i < |v.outlets|
    ensures |outlets| == |v.outlets| && outlets[i].index == i + 1 < 100 && outlets[i].relay == Unknown
    ensures v.outlets[i] == Telemetry(r, vars, groups, outlets[i])
  {
    hide NativeRows, Telemetry, GroupRelay, OpaqueID, GroupID;
  }

  lemma OutletRelay(r: Readers, vars: Variables, groups: seq<OutletGroup>, o: Outlet, n: nat)
    requires o.index == n < 100 && o.relay == Unknown
    ensures var relay := Telemetry(r, vars, groups, o).relay;
      && (relay == On <==> OutletSays(vars, n, "on")) && (relay == Off <==> OutletSays(vars, n, "off")) && relay != Mixed
    ensures Telemetry(r, vars, groups, o).index == n
  {
    hide ParseRelay, Measure, ParseTruth, OptionalText, Reads, OutletKey, OutletVar;
    KeysAre(n, "status");
    if OutletKey(n, "status") in vars {
      RelayReads(vars[OutletKey(n, "status")]);
    }
  }

  // ---- Groups --------------------------------------------------------------------------------------------

  /** What a group is said to be: by its own row, unless a member says the opposite; without a status of its own by all of
      its members together. */
  ghost predicate GroupSays(vars: Variables, v: View, k: nat, word: string, opposite: string)
    requires k < |v.groups|
  {
    var n, members := v.groups[k].sourceIndex, v.groups[k].members;
    if n > 0 && GroupVar(n, "status") in vars then
      Has(vars, GroupVar(n, "status"), word) && forall p: nat :: p in members ==> !OutletSays(vars, p, opposite)
    else forall p: nat :: p in members ==> OutletSays(vars, p, word)
  }

  predicate Within(members: seq<int>, n: nat) {
    forall i :: 0 <= i < |members| ==> 1 <= members[i] <= n
  }

  lemma {:induction false} RelaysAre(outlets: seq<Outlet>, members: seq<int>)
    requires Within(members, |outlets|)
    ensures var relays := RelaysOf(outlets, members);
      |relays| == |members| && forall i :: 0 <= i < |members| ==> InState(outlets, members[i], relays[i])
  {
    if members != [] {
      RelaysAre(outlets, members[..|members| - 1]);
    }
  }

  /** The decision about one group in terms of its members' states and its row. */
  lemma GroupDecides(g: OutletGroup, outlets: seq<Outlet>, rows: seq<NativeGroup>, s: RelayState, opposite: RelayState)
    requires (s == On && opposite == Off) || (s == Off && opposite == On)
    requires g.members != [] && Within(g.members, |outlets|) && 0 <= g.sourceIndex <= |rows|
    ensures GroupRelay(g, outlets, rows) == s <==>
      if g.sourceIndex > 0 && rows[g.sourceIndex - 1].relayPresent then
        rows[g.sourceIndex - 1].relay == s && forall p :: p in g.members ==> !InState(outlets, p, opposite)
      else forall p :: p in g.members ==> InState(outlets, p, s)
  {
    hide RelaysOf, DeriveGroupRelay, AllAre;
    RelaysAre(outlets, g.members);
    var relays := RelaysOf(outlets, g.members);
    AllInState(outlets, g.members, relays, s);
    NoneInState(outlets, g.members, relays, opposite);
    DerivedIsExact(RelaysOf(outlets, g.members), s);
  }

  predicate InState(outlets: seq<Outlet>, p: int, s: RelayState) {
    1 <= p <= |outlets| && outlets[p - 1].relay == s
  }

  lemma AllInState(outlets: seq<Outlet>, members: seq<int>, relays: seq<RelayState>, s: RelayState)
    requires |relays| == |members| && forall i :: 0 <= i < |members| ==> InState(outlets, members[i], relays[i])
    ensures AllAre(relays, s) <==> forall p :: p in members ==> InState(outlets, p, s)
  {
    if AllAre(relays, s) {
      forall p | p in members
        ensures InState(outlets, p, s)
      {
        var i :| 0 <= i < |members| && members[i] == p;
        assert InState(outlets, members[i], relays[i]);
      }
    }
    if forall p :: p in members ==> InState(outlets, p, s) {
      forall i | 0 <= i < |relays|
        ensures relays[i] == s
      {
        assert members[i] in members && InState(outlets, members[i], relays[i]);
      }
    }
  }

  lemma NoneInState(outlets: seq<Outlet>, members: seq<int>, relays: seq<RelayState>, s: RelayState)
    requires |relays| == |members| && forall i :: 0 <= i < |members| ==> InState(outlets, members[i], relays[i])
    ensures s !in relays <==> forall p :: p in members ==> !InState(outlets, p, s)
  {
    if s !in relays {
      forall p | p in members
        ensures !InState(outlets, p, s)
      {
        var i :| 0 <= i < |members| && members[i] == p;
        assert InState(outlets, members[i], relays[i]) && relays[i] in relays;
      }
    } else {
      var i :| 0 <= i < |relays| && relays[i] == s;
      assert members[i] in members && InState(outlets, members[i], relays[i]);
    }
  }

  lemma RowReads(r: Readers, vars: Variables, n: nat)
    requires 1 <= n <= |NativeRows(r, vars)|
    ensures var row := NativeRows(r, vars)[n - 1];
      && row == NativeRow(r, vars, n) && n < 100 && row.sourceIndex == n
      && (row.relayPresent <==> GroupVar(n, "status") in vars)
      && (row.relayPresent ==>
            && (row.relay == On <==> Has(vars, GroupVar(n, "status"), "on"))
            && (row.relay == Off <==> Has(vars, GroupVar(n, "status"), "off")))
  {
    hide ParseRelay, ParseTruth, BoundedIntegral, OpaqueID, Reads, GroupKey, GroupVar;
    KeysAre(n, "status");
    if GroupKey(n, "status") in vars {
      RelayReads(vars[GroupKey(n, "status")]);
    }
  }

  /** A group of an observed layout is on, or off, exactly when it is said to be. */
  lemma GroupsExactly(r: Readers, s: Snapshot, now: int, staleAfter: int, v: View, k: nat)
    requires Observes(r, s, now, staleAfter, v) && Usable(s, now) && v.topologyObserved && k < |v.groups|
    ensures var vars := s.variables.value;
      && (v.groups[k].relay == On <==> GroupSays(vars, v, k, "on", "off"))
      && (v.groups[k].relay == Off <==> GroupSays(vars, v, k, "off", "on"))
  {
    hide Observes, NativeRows, Mapped, OutletSays, GroupRelay, Has, Positions, OutletVar, GroupVar;
    var vars := s.variables.value;
    GroupsAreSound(r, s, now, staleAfter, v);
    var g := GroupBefore(r, s, now, staleAfter, v, k);
    assert |v.groups[k].members| > 0;
    forall p | p in g.members
      ensures 1 <= p <= |v.outlets| && (v.outlets[p - 1].relay == On <==> OutletSays(vars, p, "on"))
      ensures v.outlets[p - 1].relay == Off <==> OutletSays(vars, p, "off")
    {
      OutletsExactly(r, s, now, staleAfter, v, p - 1);
    }
    if g.sourceIndex != 0 {
      RowReads(r, vars, g.sourceIndex);
    }
    forall i | 0 <= i < |g.members|
      ensures 1 <= g.members[i] <= |v.outlets|
    {
      assert g.members[i] in g.members;
    }
    GroupDecides(g, v.outlets, v.nativeGroups, On, Off);
    GroupDecides(g, v.outlets, v.nativeGroups, Off, On);
  }

  /** The group before its relay state was decided. */
  lemma GroupBefore(r: Readers, s: Snapshot, now: int, staleAfter: int, v: View, k: nat) returns (g: OutletGroup)
    requires Observes(r, s, now, staleAfter, v) && Usable(s, now) && v.topologyObserved && k < |v.groups|
    ensures v.groups[k] == g.(relay := GroupRelay(g, v.outlets, v.nativeGroups))
    ensures v.nativeGroups == NativeRows(r, s.variables.value) && Attached(v.nativeGroups, g) && 0 <= g.sourceIndex
  {
    hide NativeRows, GroupRelay, Telemetry, StatusOf, BeeperOf, PowerOf, Numbers, GroupsFor, NumberedOutlets;
    var outlets, groups :| Mapped(r, s.variables.value, v, outlets, groups);
    g := groups[k];
    if g.sourceIndex != 0 {
      SourceFollows(r, s.variables.value, v.nativeGroups, g);
    }
  }

  // ---- Which row speaks for a group ----------------------------------------------------------------------

  /** An identifier is taken as it stands if it has 1 to 128 characters and no control characters among them. */
  function IdText(vars: Variables, key: string): (t: string) {
    if key in vars && 1 <= |vars[key]| <= 128 && (forall i :: 0 <= i < |vars[key]| ==> 32 <= vars[key][i] as int != 127)
    then vars[key] else ""
  }

  lemma IdsExactly(vars: Variables, key: string)
    ensures OpaqueID(vars, key) == IdText(vars, key)
  {
  }

  /** A variable that holds this number. */
  predicate Holds(r: Readers, vars: Variables, key: string, n: int) {
    key in vars && r.number(Trim(vars[key], true)) == Some(n as real)
  }

  lemma CountsExactly(r: Readers, vars: Variables, key: string, low: int, high: int)
    ensures forall n :: low <= n <= high ==>
      (key in vars && BoundedIntegral(r, vars[key], low, high) == Some(n) <==> Holds(r, vars, key, n))
  {
    forall n | low <= n <= high
      ensures key in vars && BoundedIntegral(r, vars[key], low, high) == Some(n) <==> Holds(r, vars, key, n)
    {
      assert (n as real).Floor == n;
    }
  }

  /** Row n is the only one of the table with this identifier, and the size it states, if any, is that of the group. */
  ghost predicate SpeaksFor(r: Readers, vars: Variables, id: string, size: nat, n: nat) {
    exists count: nat :: count <= 64 && Holds(r, vars, "outlet.group.count", count) && SoleRow(r, vars, id, size, n, count)
  }

  ghost predicate SoleRow(r: Readers, vars: Variables, id: string, size: nat, n: nat, count: nat) {
    && id != "" && 1 <= n <= count && IdText(vars, GroupVar(n, "id")) == id
    && (forall k: nat :: 1 <= k <= count && k != n ==> IdText(vars, GroupVar(k, "id")) != id)
    && (GroupVar(n, "count") in vars ==> size <= 64 && Holds(r, vars, GroupVar(n, "count"), size))
  }

  lemma {:induction false} NoneCounted(rows: seq<NativeGroup>, id: string)
    requires forall j :: 0 <= j < |rows| ==> rows[j].nativeID != id
    ensures Count(rows, id) == 0
  {
    if rows != [] {
      NoneCounted(rows[..|rows| - 1], id);
    }
  }

  lemma {:induction false} CountOnce(rows: seq<NativeGroup>, id: string, n: nat)
    requires n < |rows| && rows[n].nativeID == id
    ensures Count(rows, id) == 1 <==> forall j :: 0 <= j < |rows| && j != n ==> rows[j].nativeID != id
    ensures Count(rows, id) >= 1
  {
    var before, last := rows[..|rows| - 1], |rows| - 1;
    assert forall j :: 0 <= j < last ==> before[j] == rows[j];
    if n < last {
      CountOnce(before, id, n);
    } else if Count(before, id) == 0 {
      CountZero(before, id);
      forall j | 0 <= j < last
        ensures rows[j].nativeID != id
      {
        assert before[j] in before;
      }
    } else if forall j :: 0 <= j < last ==> rows[j].nativeID != id {
      NoneCounted(before, id);
    }
  }

  lemma NativeRowsAre(r: Readers, vars: Variables, n: nat)
    requires 1 <= n <= |NativeRows(r, vars)|
    ensures var row := NativeRows(r, vars)[n - 1];
      && row == NativeRow(r, vars, n) && n <= 64 && row.sourceIndex == n && row.nativeID == IdText(vars, GroupVar(n, "id"))
      && (row.countPresent <==> GroupVar(n, "count") in vars)
      && forall size: nat :: SizeAgrees(row, size) <==>
           (GroupVar(n, "count") in vars ==> size <= 64 && Holds(r, vars, GroupVar(n, "count"), size))
  {
    hide ParseRelay, ParseTruth, OpaqueID, GroupKey, GroupVar, IdText, Holds, BoundedIntegral;
    KeysAre(n, "id");
    KeysAre(n, "count");
    IdsExactly(vars, GroupKey(n, "id"));
    CountsExactly(r, vars, GroupKey(n, "count"), 0, 64);
  }

  lemma RowCount(r: Readers, vars: Variables, count: nat)
    requires count > 0
    ensures |NativeRows(r, vars)| == count <==> count <= 64 && Holds(r, vars, "outlet.group.count", count)
  {
    hide NativeRow, Holds, BoundedIntegral;
    CountsExactly(r, vars, "outlet.group.count", 0, 64);
  }

  /** The row that a group draws on, if any, is the one that speaks for it. */
  lemma SourcesExactly(r: Readers, s: Snapshot, now: int, staleAfter: int, v: View, k: nat, n: nat)
    requires Observes(r, s, now, staleAfter, v) && Usable(s, now) && v.topologyObserved && k < |v.groups| && n >= 1
    ensures var g := v.groups[k];
      g.sourceIndex == n <==> SpeaksFor(r, s.variables.value, g.nativeID, |g.members|, n)
  {
    hide Observes, NativeRows, Attached, SizeAgrees, SoleRow, Holds;
    var vars, rows := s.variables.value, v.nativeGroups;
    var g := GroupBefore(r, s, now, staleAfter, v, k);
    SourceIsRow(r, vars, g, n);
    if 1 <= n <= |rows| {
      SoleRowIsSource(r, vars, g, n);
    }
    if |rows| > 0 {
      RowCount(r, vars, |rows|);
    }
    forall count: nat | count <= 64 && Holds(r, vars, "outlet.group.count", count) && SoleRow(r, vars, g.nativeID, |g.members|, n, count)
      ensures count == |rows| && n <= count
    {
      SoleRowInRange(r, vars, g.nativeID, |g.members|, n, count);
      RowCount(r, vars, count);
    }
  }

  lemma SoleRowInRange(r: Readers, vars: Variables, id: string, size: nat, n: nat, count: nat)
    requires SoleRow(r, vars, id, size, n, count)
    ensures 1 <= n <= count
  {
    hide Holds, IdText, GroupVar;
  }

  lemma SourceIsRow(r: Readers, vars: Variables, g: OutletGroup, n: nat)
    requires Attached(NativeRows(r, vars), g) && n >= 1
    ensures g.sourceIndex == n <==> n <= |NativeRows(r, vars)| && IsSource(NativeRows(r, vars), g, NativeRows(r, vars)[n - 1])
  {
    hide NativeRows, SizeAgrees;
    var rows := NativeRows(r, vars);
    if g.sourceIndex == n {
      var row :| IsSource(rows, g, row);
      var j :| 0 <= j < |rows| && rows[j] == row;
      RowIndex(r, vars, j);
    }
    if n <= |rows| {
      RowIndex(r, vars, n - 1);
    }
  }

  lemma SoleRowIsSource(r: Readers, vars: Variables, g: OutletGroup, n: nat)
    requires 1 <= n <= |NativeRows(r, vars)|
    ensures var rows := NativeRows(r, vars);
      IsSource(rows, g, rows[n - 1]) <==> SoleRow(r, vars, g.nativeID, |g.members|, n, |rows|)
  {
    hide NativeRows, NativeRow, SizeAgrees, IdText, GroupVar, Holds;
    var rows := NativeRows(r, vars);
    forall k: nat | 1 <= k <= |rows|
      ensures rows[k - 1].nativeID == IdText(vars, GroupVar(k, "id"))
    {
      NativeRowsAre(r, vars, k);
    }
    NativeRowsAre(r, vars, n);
    if rows[n - 1].nativeID == g.nativeID {
      CountOnce(rows, g.nativeID, n - 1);
      OthersDiffer(vars, rows, g.nativeID, n);
    }
  }

  lemma OthersDiffer(vars: Variables, rows: seq<NativeGroup>, id: string, n: nat)
    requires forall k: nat :: 1 <= k <= |rows| ==> rows[k - 1].nativeID == IdText(vars, GroupVar(k, "id"))
    ensures (forall j :: 0 <= j < |rows| && j != n - 1 ==> rows[j].nativeID != id) <==>
            (forall k: nat :: 1 <= k <= |rows| && k != n ==> IdText(vars, GroupVar(k, "id")) != id)
  {
    hide IdText, GroupVar;
    if forall k: nat :: 1 <= k <= |rows| && k != n ==> IdText(vars, GroupVar(k, "id")) != id {
      forall j | 0 <= j < |rows| && j != n - 1
        ensures rows[j].nativeID != id
      {
        assert IdText(vars, GroupVar(j + 1, "id")) == rows[j + 1 - 1].nativeID;
      }
    }
  }

  // ---- Readings ------------------------------------------------------------------------------------------

  /** The value of a variable: a number in a range, and nothing when it is absent, blank, no number or out of range. */
  ghost predicate Reading(r: Readers, vars: Variables, key: string, low: real, high: real, x: Option<real>) {
    if key in vars && Trim(vars[key], true) != "" && r.number(Trim(vars[key], true)).Some?
      && low <= r.number(Trim(vars[key], true)).value <= high
    then x == r.number(Trim(vars[key], true)) else x == None
  }

  lemma MeasuresRead(r: Readers, vars: Variables, key: string, low: real, high: real)
    ensures Reading(r, vars, key, low, high, Known(Measure(r, vars, key, low, high)))
  {
    hide Trim;
  }

  /** The nearest whole number, halves away from zero. */
  predicate Nearest(x: Option<real>, n: Option<int>) {
    match x
    case None => n == None
    case Some(v) => n.Some? && n.value as real - 0.5 <= v < n.value as real + 0.5
  }

  lemma RoundedIsNearest(v: real)
    requires v >= 0.0
    ensures Nearest(Some(v), Some(Rounded(v)))
  {
  }

  /** What is read of the n-th outlet into its row, apart from its relay. */
  ghost predicate ReadFrom(r: Readers, vars: Variables, n: nat, row: Row) {
    && Reading(r, vars, OutletVar(n, "voltage"), 0.0, 1000.0, row.voltage)
    && Reading(r, vars, OutletVar(n, "current"), 0.0, 10000.0, row.current)
    && Reading(r, vars, OutletVar(n, "powerfactor"), 0.0, 1.0, row.powerFactor)
    && NearestReading(r, vars, OutletVar(n, "realpower"), 0.0, 1_000_000_000.0, row.powerW)
  }

  /** The fixed part of a row: its place, its name, and what kind of outlet it is. */
  ghost predicate Described(r: Readers, vars: Variables, n: nat, row: Row) {
    var kind := r.classify(Lookup(vars, OutletVar(n, "type")), Lookup(vars, OutletVar(n, "designator")));
    var metered := OutletVar(n, "current") in vars || OutletVar(n, "realpower") in vars || OutletVar(n, "power") in vars;
    && row.index == n && row.name == NameText(vars, n)
    && row.capabilities == Some(if kind == USB then (if metered then 131074 else 131072) else if metered then 65538 else 65536)
    && row.buttonGroup == 0 && row.buttonState.None? && row.energyDay.None? && row.energyWeek.None? && row.energyMonth.None?
  }

  predicate Filled(vars: Variables, key: string) {
    key in vars && Trim(vars[key], true) != ""
  }

  predicate Shown(t: string) {
    1 <= |t| <= 128 && forall i :: 0 <= i < |t| ==> 32 <= t[i] as int != 127
  }

  /** The description, or else the name, if it can be shown, or else the number. */
  function NameText(vars: Variables, n: nat): string {
    var own := if Filled(vars, OutletVar(n, "desc")) then Trim(vars[OutletVar(n, "desc")], true)
               else if Filled(vars, OutletVar(n, "name")) then Trim(vars[OutletVar(n, "name")], true) else "";
    if Shown(own) then own else "Outlet " + Markers.Decimal(n)
  }

  lemma TelemetryReads(r: Readers, vars: Variables, groups: seq<OutletGroup>, o: Outlet, n: nat)
    requires o.index == n < 100
    ensures var t := Telemetry(r, vars, groups, o);
      && Reading(r, vars, OutletVar(n, "voltage"), 0.0, 1000.0, Known(t.voltage))
      && Reading(r, vars, OutletVar(n, "current"), 0.0, 10000.0, Known(t.current))
      && Reading(r, vars, OutletVar(n, "powerfactor"), 0.0, 1.0, Known(t.powerFactor))
      && Reading(r, vars, OutletVar(n, "realpower"), 0.0, 1_000_000_000.0, Known(t.powerW))
      && (t.powerW.known ==> t.powerW.value >= 0.0) && (t.powerFactor.known ==> 0.0 <= t.powerFactor.value <= 1.0)
  {
    hide Measure, ParseRelay, ParseTruth, OptionalText, Reading, OutletKey, OutletVar;
    KeysAre(n, "voltage");
    KeysAre(n, "current");
    KeysAre(n, "powerfactor");
    KeysAre(n, "realpower");
    MeasuresRead(r, vars, OutletKey(n, "voltage"), 0.0, 1000.0);
    MeasuresRead(r, vars, OutletKey(n, "current"), 0.0, 10000.0);
    MeasuresRead(r, vars, OutletKey(n, "powerfactor"), 0.0, 1.0);
    MeasuresRead(r, vars, OutletKey(n, "realpower"), 0.0, 1_000_000_000.0);
  }

  lemma TelemetryDescribes(r: Readers, vars: Variables, groups: seq<OutletGroup>, o: Outlet, n: nat)
    requires o.index == n < 100 && o.name == OutletName(n)
    ensures Described(r, vars, n, ObservedRow(Telemetry(r, vars, groups, o)))
  {
    hide Measure, ParseRelay, ParseTruth, OutletKey, OutletVar, Trim;
    KeysAre(n, "type");
    KeysAre(n, "designator");
    KeysAre(n, "current");
    KeysAre(n, "realpower");
    KeysAre(n, "power");
    KeysAre(n, "desc");
    KeysAre(n, "name");
    NumberNames(n);
    Bits();
  }

  lemma NumberNames(n: nat)
    requires n < 100
    ensures OutletName(n) == "Outlet " + Markers.Decimal(n) && Shown(OutletName(n))
  {
    assert Decimal(n) == Markers.Decimal(n);
  }

  lemma Bits()
    ensures CAP_AC == 65536 && CAP_USB == 131072 && CAP_AC | POWER_METER == 65538 && CAP_USB | POWER_METER == 131074
  {
  }

  // ---- Rows of the report --------------------------------------------------------------------------------

  /** The group of a row is said to be in a state. */
  ghost predicate RowSays(vars: Variables, v: View, i: nat, word: string, opposite: string)
    requires i < |v.outlets| && 1 <= v.outlets[i].relayGroup <= |v.groups|
  {
    GroupSays(vars, v, v.outlets[i].relayGroup - 1, word, opposite)
  }

  lemma RowOf(p: Profile, nutServer: bool, headerOk: bool, v: View, i: nat)
    requires v.topologyObserved && i < |v.outlets|
    ensures var report, row := Projection(p, nutServer, headerOk, v), ObservedRow(v.outlets[i]);
      && |report.outlets| == |v.outlets| && report.source == ObservedNUT
      && report.outlets[i] == (if v.availability == Available then WithTelemetry(row, v, v.outlets[i]) else row)
  {
    hide WithTelemetry, ProjectBattery, ObservedRow;
  }

  /** Each row of an observed layout describes its outlet. In an available report it says true exactly when its group is said
      to be on, false exactly when its group is said to be off, and carries the outlet's readings; otherwise it says
      nothing more. */
  lemma RowsExactly(r: Readers, s: Snapshot, now: int, staleAfter: int, v: View, p: Profile, nutServer: bool,
                    headerOk: bool, i: nat)
    requires Observes(r, s, now, staleAfter, v) && Usable(s, now) && v.topologyObserved && i < |v.outlets|
    ensures var vars, report := s.variables.value, Projection(p, nutServer, headerOk, v);
      && |report.outlets| == |v.outlets| && 1 <= v.outlets[i].relayGroup <= |v.groups|
      && var row := report.outlets[i];
      && Described(r, vars, i + 1, row) && row.relayGroup == v.outlets[i].relayGroup
      && if v.availability == Available then
           && (row.relay == Some(true) <==> RowSays(vars, v, i, "on", "off"))
           && (row.relay == Some(false) <==> RowSays(vars, v, i, "off", "on"))
           && ReadFrom(r, vars, i + 1, row)
         else row.relay.None? && row.voltage.None? && row.current.None? && row.powerW.None? && row.powerFactor.None?
  {
    hide Observes, GroupSays, Projection, Reading, Described, OutletVar, Rounded, Nearest;
    var vars := s.variables.value;
    GroupsAreSound(r, s, now, staleAfter, v);
    var g := v.outlets[i].relayGroup;
    GroupsExactly(r, s, now, staleAfter, v, g - 1);
    RowOf(p, nutServer, headerOk, v, i);
    OutletTelemetry(r, s, now, staleAfter, v, i);
    var o := v.outlets[i];
    DescribedOnly(r, vars, i + 1, ObservedRow(o), WithTelemetry(ObservedRow(o), v, o));
    if o.powerW.known {
      RoundedIsNearest(o.powerW.value);
      assert Nearest(Known(o.powerW), Some(Rounded(o.powerW.value)));
    } else {
      assert Nearest(Known(o.powerW), None) by {
        NothingIsNearest();
      }
    }
  }

  lemma NothingIsNearest()
    ensures Nearest(None, None)
  {
  }

  lemma DescribedOnly(r: Readers, vars: Variables, n: nat, a: Row, b: Row)
    requires Described(r, vars, n, a)
    requires b == a.(relay := b.relay, voltage := b.voltage, current := b.current, powerW := b.powerW, powerFactor := b.powerFactor)
    ensures Described(r, vars, n, b)
  {
  }

  lemma OutletTelemetry(r: Readers, s: Snapshot, now: int, staleAfter: int, v: View, i: nat)
    requires Observes(r, s, now, staleAfter, v) && Usable(s, now) && v.topologyObserved && i < |v.outlets|
    ensures var vars, o := s.variables.value, v.outlets[i]; var n := i + 1;
      && Reading(r, vars, OutletVar(n, "voltage"), 0.0, 1000.0, Known(o.voltage))
      && Reading(r, vars, OutletVar(n, "current"), 0.0, 10000.0, Known(o.current))
      && Reading(r, vars, OutletVar(n, "powerfactor"), 0.0, 1.0, Known(o.powerFactor))
      && Reading(r, vars, OutletVar(n, "realpower"), 0.0, 1_000_000_000.0, Known(o.powerW))
      && (o.powerW.known ==> o.powerW.value >= 0.0) && (o.powerFactor.known ==> 0.0 <= o.powerFactor.value <= 1.0)
      && Described(r, vars, n, ObservedRow(o))
  {
    hide StatusOf, BeeperOf, PowerOf, NativeRows, AvailabilityOf, Telemetry, Reading, Described, ObservedRow, GroupRelay;
    hide OutletVar;
    var vars := s.variables.value;
    var outlets, groups :| Mapped(r, vars, v, outlets, groups);
    PlainBefore(r, vars, v, outlets, groups, i);
    PlainName(r, vars, v, outlets, groups, i);
    TelemetryReads(r, vars, groups, outlets[i], i + 1);
    TelemetryDescribes(r, vars, groups, outlets[i], i + 1);
  }

  lemma PlainName(r: Readers, vars: Variables, v: View, outlets: seq<Outlet>, groups: seq<OutletGroup>, i: nat)
    requires Mapped(r, vars, v, outlets, groups) && v.topologyObserved && i < |outlets|
    ensures outlets[i].index == i + 1 < 100 && outlets[i].name == OutletName(i + 1)
    ensures outlets[i].nativeGroupID == GroupID(vars, i + 1)
  {
    hide NativeRows, Telemetry, GroupRelay, OpaqueID, GroupID, OutletName, Numbers;
  }

  /** The layout is observed exactly when outlet.count is a number from 1 to 64, and then there are so many outlets; two of
      them share a group exactly when they have the same identifier. */
  lemma LayoutExactly(r: Readers, s: Snapshot, now: int, staleAfter: int, v: View)
    requires Observes(r, s, now, staleAfter, v) && Usable(s, now)
    ensures v.topologyObserved <==> exists n :: 1 <= n <= 64 && Holds(r, s.variables.value, "outlet.count", n)
    ensures v.topologyObserved ==>
      && 1 <= |v.outlets| <= 64 && Holds(r, s.variables.value, "outlet.count", |v.outlets|)
      && forall i, j :: 0 <= i < j < |v.outlets| ==>
           var a, b := IdText(s.variables.value, OutletVar(i + 1, "groupid")), IdText(s.variables.value, OutletVar(j + 1, "groupid"));
           v.outlets[i].relayGroup == v.outlets[j].relayGroup <==> a != "" && a == b
  {
    hide StatusOf, BeeperOf, PowerOf, NativeRows, AvailabilityOf, Holds, BoundedIntegral, Topology, IdText, OutletVar;
    var vars := s.variables.value;
    var outlets, groups :| Mapped(r, vars, v, outlets, groups);
    CountsExactly(r, vars, "outlet.count", 1, 64);
    if v.topologyObserved {
      TopologyCount(v.nativeGroups, vars, ObservedCount(r, vars).value, outlets, groups);
      GroupsAreSound(r, s, now, staleAfter, v);
      forall i | 0 <= i < |v.outlets|
        ensures v.outlets[i].nativeGroupID == IdText(vars, OutletVar(i + 1, "groupid"))
      {
        PlainBefore(r, vars, v, outlets, groups, i);
        PlainName(r, vars, v, outlets, groups, i);
        KeysAre(i + 1, "groupid");
        IdsExactly(vars, OutletKey(i + 1, "groupid"));
      }
    }
  }

  lemma TopologyCount(rows: seq<NativeGroup>, vars: Variables, count: nat, outlets: seq<Outlet>,
                      groups: seq<OutletGroup>)
    requires count <= MAX_OUTLETS && Topology(rows, vars, count, outlets, groups)
    ensures |outlets| == count
  {
  }

  lemma MappedGroupId(r: Readers, vars: Variables, v: View, outlets: seq<Outlet>, groups: seq<OutletGroup>, i: nat)
    requires Mapped(r, vars, v, outlets, groups) && v.topologyObserved && i < |v.outlets|
    requires 1 <= v.outlets[i].relayGroup <= |v.groups|
    ensures v.groups[v.outlets[i].relayGroup - 1].nativeID == GroupID(vars, i + 1)
  {
    hide GroupID, Numbers, Telemetry, GroupRelay, MembersFit, Attached, ObservedCount, KeysOf, Highest, NumberedOutlets;
    var ids := GroupIDs(vars, ObservedCount(r, vars).value);
    var numbers := Numbers(KeysOf(ids));
    OutletsKeepNumbers(r, vars, v, outlets, groups, numbers);
    assert groups[numbers[i] - 1].nativeID == ids[i];
  }

  /** A group carries the identifier of its outlets. */
  lemma GroupIdsExactly(r: Readers, s: Snapshot, now: int, staleAfter: int, v: View, i: nat)
    requires Observes(r, s, now, staleAfter, v) && Usable(s, now) && v.topologyObserved && i < |v.outlets|
    ensures 1 <= v.outlets[i].relayGroup <= |v.groups|
    ensures v.groups[v.outlets[i].relayGroup - 1].nativeID == IdText(s.variables.value, OutletVar(i + 1, "groupid"))
  {
    hide StatusOf, BeeperOf, PowerOf, NativeRows, AvailabilityOf, IdText, OutletVar, Mapped, OpaqueID;
    var vars := s.variables.value;
    GroupsAreSound(r, s, now, staleAfter, v);
    var outlets, groups :| Mapped(r, vars, v, outlets, groups);
    MappedGroupId(r, vars, v, outlets, groups, i);
    LayoutExactly(r, s, now, staleAfter, v);
    KeysAre(i + 1, "groupid");
    IdsExactly(vars, OutletKey(i + 1, "groupid"));
  }

  // ---- The device as a whole -----------------------------------------------------------------------------

  predicate Token(vars: Variables, token: string) {
    token in Fields(Lookup(vars, "ups.status"))
  }

  // Status texts that are written as words with blanks between them have exactly those tokens.

  predicate Plain(w: string) {
    w != "" && forall i :: 0 <= i < |w| ==> 32 < w[i] as int < 127
  }

  predicate Blanks(p: string) {
    forall i :: 0 <= i < |p| ==> p[i] == ' ' || p[i] == '\t'
  }

  function Spaced(words: seq<string>, p: string): string {
    if words == [] then "" else words[0] + p + Spaced(words[1..], p)
  }

  lemma {:induction false} BlanksGo(p: string, rest: string)
    requires Blanks(p)
    ensures Fields(p + rest) == Fields(rest)
  {
    hide SpaceSize;
    if p == "" {
      assert p + rest == rest;
    } else {
      assert (p + rest)[1..] == p[1..] + rest && SpaceSize(p + rest) == 1;
      BlanksGo(p[1..], rest);
    }
  }

  lemma {:induction false} WordStops(w: string, rest: string)
    requires (forall i :: 0 <= i < |w| ==> 32 < w[i] as int < 127) && (rest == "" || rest[0] == ' ' || rest[0] == '\t')
    ensures Word(w + rest) == w
  {
    if w == "" {
      assert w + rest == rest;
    } else {
      assert (w + rest)[1..] == w[1..] + rest;
      WordStops(w[1..], rest);
    }
  }

  lemma {:induction false} TokensExactly(words: seq<string>, p: string)
    requires p != "" && Blanks(p) && forall i :: 0 <= i < |words| ==> Plain(words[i])
    ensures Fields(Spaced(words, p)) == words
  {
    hide Word, SpaceSize;
    if words != [] {
      var rest := Spaced(words[1..], p);
      var text := words[0] + (p + rest);
      assert Spaced(words, p) == text;
      WordStops(words[0], p + rest);
      assert text[|words[0]|..] == p + rest;
      PlainStart(words[0], p + rest);
      BlanksGo(p, rest);
      TokensExactly(words[1..], p);
      assert [words[0]] + words[1..] == words;
    }
  }

  lemma PlainStart(w: string, rest: string)
    requires Plain(w)
    ensures SpaceSize(w + rest) == 0
  {
  }

  /** A report is available exactly when the observation is from the past, no older than the limit, and its status has
      exactly one of the three power states. */
  lemma AvailabilityExactly(s: Snapshot, now: int, staleAfter: int)
    ensures AvailabilityOf(s, now, staleAfter) == Available <==>
      && Usable(s, now) && now - s.collectedAt <= staleAfter
      && var vars := s.variables.value;
         || (Token(vars, "OL") && !Token(vars, "OB") && !Token(vars, "OFF"))
         || (!Token(vars, "OL") && Token(vars, "OB") && !Token(vars, "OFF"))
         || (!Token(vars, "OL") && !Token(vars, "OB") && Token(vars, "OFF"))
  {
    hide Fields;
  }

  /** The charger's own text decides unless it is unknown or contradicted by an old-style token; without one the tokens do,
      unless they contradict each other. */
  ghost predicate Charging(vars: Variables, charging: Option<bool>) {
    var up, down := Token(vars, "CHRG"), Token(vars, "DISCHRG");
    var text := "battery.charger.status";
    var expected :=
      if up && down then None
      else if text !in vars then (if up then Some(true) else if down then Some(false) else None)
      else if Has(vars, text, "charging") then (if down then None else Some(true))
      else if Has(vars, text, "discharging") then (if up then None else Some(false))
      else if Has(vars, text, "floating") || Has(vars, text, "resting") then (if up || down then None else Some(false))
      else None;
    charging == expected
  }

  lemma ChargerWords(text: string)
    ensures LowerWord(text) in {"charging", "discharging", "floating", "resting"} <==>
      Spells(text, "charging") || Spells(text, "discharging") || Spells(text, "floating") || Spells(text, "resting")
    ensures LowerWord(text) == "charging" <==> Spells(text, "charging")
    ensures LowerWord(text) == "discharging" <==> Spells(text, "discharging")
    ensures !(Spells(text, "charging") && (Spells(text, "discharging") || Spells(text, "floating") || Spells(text, "resting")))
    ensures !(Spells(text, "discharging") && (Spells(text, "floating") || Spells(text, "resting")))
  {
    hide LowerWord, Spells;
    SpellsExactly(text, "charging");
    SpellsExactly(text, "discharging");
    SpellsExactly(text, "floating");
    SpellsExactly(text, "resting");
    assert "charging"[0] != "floating"[0] && |"charging"| == 8 && |"discharging"| == 11 && |"floating"| == 8 && |"resting"| == 7;
  }

  lemma ChargingReads(vars: Variables)
    ensures Charging(vars, if ChargingOf(vars).known then Some(ChargingOf(vars).value) else None)
  {
    hide LowerWord, Trim, Spells, Fields;
    ChargerWords(Trim(Lookup(vars, "battery.charger.status"), true));
  }

  lemma BeeperReads(vars: Variables)
    ensures var beep := BeepText(BeeperOf(vars));
      && (beep == Some(true) <==> Has(vars, "ups.beeper.status", "enabled"))
      && (beep == Some(false) <==> Has(vars, "ups.beeper.status", "disabled"))
  {
    hide LowerWord, Trim, Spells;
    var text := Trim(Lookup(vars, "ups.beeper.status"), true);
    SpellsExactly(text, "enabled");
    SpellsExactly(text, "disabled");
    assert |"enabled"| == 7 && |"disabled"| == 8 && |"muted"| == 5;
  }

  /** A power from one of two variables, or from both when they agree; whichever is present must be a usable number. */
  ghost predicate EitherReading(r: Readers, vars: Variables, first: string, second: string, zero: bool,
                                x: Option<real>) {
    forall value :: x == Some(value) <==>
      && (first in vars || second in vars) && 0.0 <= value <= 1_000_000_000.0 && (zero || value != 0.0)
      && (first in vars ==> r.number(Trim(vars[first], true)) == Some(value))
      && (second in vars ==> r.number(Trim(vars[second], true)) == Some(value))
  }

  lemma AliasesRead(r: Readers, vars: Variables, first: string, second: string, zero: bool)
    ensures EitherReading(r, vars, first, second, zero, Known(Aliased(r, vars, first, second, zero)))
  {
    hide Trim;
  }

  /** The stated power factor, or else the ratio of real to apparent power where that is a ratio. */
  ghost predicate FactorIs(r: Readers, vars: Variables, x: Option<real>) {
    if "output.powerfactor" in vars then
      var n := r.number(Trim(vars["output.powerfactor"], true));
      x == if n.Some? && 0.0 <= n.value <= 1.0 then n else None
    else
      exists watts, apparent ::
        && EitherReading(r, vars, "ups.realpower", "output.realpower", true, watts)
        && EitherReading(r, vars, "ups.power", "output.power", true, apparent)
        && x == Ratio(watts, apparent)
  }

  function Ratio(watts: Option<real>, apparent: Option<real>): Option<real> {
    if watts.Some? && apparent.Some? && apparent.value > 0.0 && watts.value <= apparent.value
    then Some(watts.value / apparent.value) else None
  }

  lemma RatioInRange(a: real, b: real)
    requires 0.0 <= a <= b && b > 0.0
    ensures 0.0 <= a / b <= 1.0
  {
  }

  lemma FactorReads(r: Readers, vars: Variables, watts: Measurement, apparent: Measurement)
    requires watts == Aliased(r, vars, "ups.realpower", "output.realpower", true)
    requires apparent == Aliased(r, vars, "ups.power", "output.power", true)
    ensures FactorIs(r, vars, Known(OutputPowerFactor(r, vars, watts, apparent)))
  {
    hide Trim, Aliased, EitherReading;
    AliasesRead(r, vars, "ups.realpower", "output.realpower", true);
    AliasesRead(r, vars, "ups.power", "output.power", true);
    var x, a, b := Known(OutputPowerFactor(r, vars, watts, apparent)), Known(watts), Known(apparent);
    if "output.powerfactor" !in vars {
      if watts.known && apparent.known && apparent.value > 0.0 && watts.value <= apparent.value {
        RatioInRange(watts.value, apparent.value);
      }
      assert x == Ratio(a, b);
    }
  }

  /** The nominal power as a budget, if it rounds to one watt or more. */
  predicate BudgetIs(nominal: Option<real>, budget: Option<int>) {
    if nominal.Some? && nominal.value >= 0.5 then budget.Some? && Nearest(nominal, budget) else budget.None?
  }

  ghost predicate Budgeted(r: Readers, vars: Variables, budget: Option<int>) {
    exists x :: EitherReading(r, vars, "ups.realpower.nominal", "output.realpower.nominal", false, x) && BudgetIs(x, budget)
  }

  ghost predicate NearestReading(r: Readers, vars: Variables, key: string, low: real, high: real, n: Option<int>) {
    exists x :: Reading(r, vars, key, low, high, x) && Nearest(x, n)
  }

  /** Every reading of the device as a whole, each from its own variable. */
  ghost predicate BatteryReads(r: Readers, vars: Variables, b: Battery) {
    && NearestReading(r, vars, "battery.charge", 0.0, 100.0, b.level)
    && b.available == b.ready == (if b.level.Some? then Some(1) else None)
    && NearestReading(r, vars, "battery.runtime", 0.0, 2_678_400.0, b.runtime)
    && EitherReading(r, vars, "ups.realpower", "output.realpower", true, b.output)
    && Budgeted(r, vars, b.budget)
    && Reading(r, vars, "output.voltage", 0.0, 1000.0, b.outputVoltage)
    && Reading(r, vars, "input.voltage", 0.0, 1000.0, b.inputVoltage)
    && Reading(r, vars, "output.current", 0.0, 10000.0, b.outputCurrent)
    && FactorIs(r, vars, b.powerFactor) && Charging(vars, b.charging)
    && b.onBattery == Some(Token(vars, "OB"))
  }

  lemma PowerReads(r: Readers, vars: Variables)
    ensures var p := PowerOf(r, vars);
      && Reading(r, vars, "battery.charge", 0.0, 100.0, Known(p.chargePercent))
      && Reading(r, vars, "battery.runtime", 0.0, 2_678_400.0, Known(p.runtime))
      && EitherReading(r, vars, "ups.realpower", "output.realpower", true, Known(p.outputPower))
      && EitherReading(r, vars, "ups.realpower.nominal", "output.realpower.nominal", false, Known(p.outputNominal))
      && Reading(r, vars, "output.voltage", 0.0, 1000.0, Known(p.outputVoltage))
      && Reading(r, vars, "input.voltage", 0.0, 1000.0, Known(p.inputVoltage))
      && Reading(r, vars, "output.current", 0.0, 10000.0, Known(p.outputCurrent))
      && FactorIs(r, vars, Known(p.powerFactor))
  {
    hide Reading, EitherReading, FactorIs, Measure, Aliased, OutputPowerFactor;
    MeasuresRead(r, vars, "battery.charge", 0.0, 100.0);
    MeasuresRead(r, vars, "battery.runtime", 0.0, 2_678_400.0);
    MeasuresRead(r, vars, "output.voltage", 0.0, 1000.0);
    MeasuresRead(r, vars, "input.voltage", 0.0, 1000.0);
    MeasuresRead(r, vars, "output.current", 0.0, 10000.0);
    AliasesRead(r, vars, "ups.realpower", "output.realpower", true);
    AliasesRead(r, vars, "ups.realpower.nominal", "output.realpower.nominal", false);
    FactorReads(r, vars, Aliased(r, vars, "ups.realpower", "output.realpower", true),
                Aliased(r, vars, "ups.power", "output.power", true));
  }

  /** A measurement rounded, if there is one. */
  function RoundedOf(m: Measurement): Option<int> {
    if m.known then Some(Rounded(m.value)) else None
  }

  lemma RoundedReads(m: Measurement)
    requires m.known ==> m.value >= 0.0
    ensures Nearest(Known(m), RoundedOf(m))
    ensures BudgetIs(Known(m), if m.known && m.value > 0.0 && Rounded(m.value) > 0 then Some(Rounded(m.value)) else None)
  {
  }

  lemma RoundedPower(r: Readers, vars: Variables, p: Power)
    requires p == PowerOf(r, vars)
    ensures NearestReading(r, vars, "battery.charge", 0.0, 100.0, RoundedOf(p.chargePercent))
    ensures NearestReading(r, vars, "battery.runtime", 0.0, 2_678_400.0, RoundedOf(p.runtime))
    ensures var n := p.outputNominal;
      Budgeted(r, vars, if n.known && n.value > 0.0 && Rounded(n.value) > 0 then Some(Rounded(n.value)) else None)
    ensures p.powerFactor.known ==> 0.0 <= p.powerFactor.value <= 1.0
  {
    hide Reading, EitherReading, FactorIs, PowerOf, Rounded, Nearest, BudgetIs, RoundedOf;
    PowerReads(r, vars);
    PowerIsInRange(r, vars);
    RoundedReads(p.chargePercent);
    RoundedReads(p.runtime);
    RoundedReads(p.outputNominal);
  }

  lemma BatteryIsRead(r: Readers, vars: Variables, v: View)
    requires v.power == PowerOf(r, vars) && v.status == StatusOf(vars) && PowerSources(vars) == 1
    ensures BatteryReads(r, vars, ProjectBattery(v))
  {
    hide Reading, EitherReading, FactorIs, PowerOf, Rounded, NearestReading, Budgeted, Charging, ChargingOf, Token;
    hide Fields;
    var p := v.power;
    PowerReads(r, vars);
    RoundedPower(r, vars, p);
    ChargingReads(vars);
    SomeToken(vars);
  }

  lemma SomeToken(vars: Variables)
    requires PowerSources(vars) == 1
    ensures StatusOf(vars).onBattery == Truth(Token(vars, "OB"), true)
  {
    hide Fields, ChargingOf;
  }

  /** The report of the device: what it can do, and - only when it is available - what was read. */
  lemma DeviceExactly(r: Readers, s: Snapshot, now: int, staleAfter: int, v: View, p: Profile, nutServer: bool,
                      headerOk: bool)
    requires Observes(r, s, now, staleAfter, v)
    ensures var report := Projection(p, nutServer, headerOk, v);
      && report.profile == p && report.headerOk == headerOk && report.smartPower == Some(if nutServer then 9 else 8)
      && if AvailabilityOf(s, now, staleAfter) == Available then
           var vars := s.variables.value;
           && BatteryReads(r, vars, report.battery)
           && (report.beep == Some(true) <==> Has(vars, "ups.beeper.status", "enabled"))
           && (report.beep == Some(false) <==> Has(vars, "ups.beeper.status", "disabled"))
         else report.beep.None? && report.battery == Battery(None, None, None, None, None, None, None, None, None, None, None, None)
  {
    hide Mapped, PowerOf, StatusOf, BeeperOf, BatteryReads, ProjectBattery, TelemetryRows, TopologyRows, Has, NativeRows;
    hide HasToken, BeepText;
    SmartBits(p, nutServer);
    if AvailabilityOf(s, now, staleAfter) == Available {
      BatteryIsRead(r, s.variables.value, v);
      BeeperReads(s.variables.value);
    }
  }

  lemma SmartBits(p: Profile, nutServer: bool)
    ensures SmartPower(p, nutServer) == if nutServer then 9 else 8
  {
  }

  /** Without an observed layout the rows are those of the carrier: nine groups of one, or two groups of four. */
  lemma FallbackExactly(r: Readers, s: Snapshot, now: int, staleAfter: int, v: View, p: Profile, nutServer: bool,
                        headerOk: bool, i: nat)
    requires Observes(r, s, now, staleAfter, v) && Usable(s, now) && !v.topologyObserved
    requires i < if p == UPS2UPro then 9 else 8
    ensures var report := Projection(p, nutServer, headerOk, v);
      && report.source == CarrierFallback && |report.outlets| == (if p == UPS2UPro then 9 else 8)
      && report.outlets[i] ==
           Row(i + 1, if i < 8 then NameText(s.variables.value, i + 1) else "Outlet 9", Some(65536),
               if p == UPS2UPro then i + 1 else i / 4 + 1, None, 0, None, None, None, None, None, None, None, None)
  {
    hide StatusOf, BeeperOf, PowerOf, NativeRows, AvailabilityOf, GroupRelay, Telemetry, NameText, ProjectBattery;
    var vars := s.variables.value;
    var outlets, groups :| Mapped(r, vars, v, outlets, groups);
    FallbackRowsAre(p, v);
    Bits();
    if i < 8 {
      assert outlets[i] == BlankOutlet(i + 1, "", "", i / 4 + 1);
      TelemetryNames(r, vars, groups, outlets[i], i + 1);
    }
  }

  lemma TelemetryNames(r: Readers, vars: Variables, groups: seq<OutletGroup>, o: Outlet, n: nat)
    requires o.index == n < 100 && o.name == OutletName(n)
    ensures Telemetry(r, vars, groups, o).name == NameText(vars, n) && Telemetry(r, vars, groups, o).relayGroup == o.relayGroup
  {
    TelemetryDescribes(r, vars, groups, o, n);
  }

  // ---- The validator --------------------------------------------------------------------------------------

  predicate NotNegative(x: Option<real>) {
    x.None? || x.value >= 0.0
  }

  /** What every row must satisfy, wherever it comes from. */
  predicate SoundRow(count: nat, i: nat, row: Row) {
    && Shown(row.name) && (row.index == i + 1 || row.index == 0) && 1 <= row.relayGroup <= count && 0 <= row.buttonGroup <= count
    && (row.powerW.Some? ==> 0 <= row.powerW.value < 0x8000_0000_0000_0000)
    && (row.powerFactor.Some? ==> 0.0 <= row.powerFactor.value <= 1.0)
    && NotNegative(row.voltage) && NotNegative(row.current)
    && NotNegative(row.energyDay) && NotNegative(row.energyWeek) && NotNegative(row.energyMonth)
  }

  predicate NoExtras(row: Row) {
    && row.index != 0 && row.buttonGroup == 0 && row.buttonState.None?
    && row.energyDay.None? && row.energyWeek.None? && row.energyMonth.None?
  }

  /** A row of an observed layout is an AC or a USB outlet, never both, with or without a meter, and only with one does it
      report current or power; a carrier row is a bare AC outlet. Neither has buttons or energy counters. */
  lemma ProjectedRowsExactly(p: Profile, count: nat, i: nat, row: Row)
    ensures RowOk(p, ObservedNUT, count, i, row) <==>
      && SoundRow(count, i, row) && NoExtras(row)
      && (row.capabilities == Some(65536) || row.capabilities == Some(65538) || row.capabilities == Some(131072) ||
          row.capabilities == Some(131074))
      && (row.current.Some? || row.powerW.Some? ==> row.capabilities == Some(65538) || row.capabilities == Some(131074))
    ensures RowOk(p, CarrierFallback, count, i, row) <==>
      && SoundRow(count, i, row) && NoExtras(row) && row.capabilities == Some(65536)
      && row.relay.None? && row.voltage.None? && row.current.None? && row.powerW.None? && row.powerFactor.None?
  {
    hide ValidConfigValue, Shown, ProjectedRowOk;
    NameIsShown(row.name);
    ObservedRowBits(row);
    CarrierRowBits(row);
  }

  lemma ObservedRowBits(row: Row)
    ensures ProjectedRowOk(ObservedNUT, row) <==>
      && NoExtras(row)
      && (row.capabilities == Some(65536) || row.capabilities == Some(65538) || row.capabilities == Some(131072) ||
          row.capabilities == Some(131074))
      && (row.current.Some? || row.powerW.Some? ==> row.capabilities == Some(65538) || row.capabilities == Some(131074))
  {
    hide ProjectedCaps, Metered;
    if row.capabilities.Some? {
      ProjectedBits(row.capabilities.value);
    }
  }

  lemma CarrierRowBits(row: Row)
    ensures ProjectedRowOk(CarrierFallback, row) <==>
      && NoExtras(row) && row.capabilities == Some(65536)
      && row.relay.None? && row.voltage.None? && row.current.None? && row.powerW.None? && row.powerFactor.None?
  {
    hide ProjectedCaps, Metered;
    BareBits();
  }

  lemma BareBits()
    ensures CAP_AC == 65536 && ProjectedCaps(CarrierFallback, 65536)
  {
  }

  lemma NameIsShown(name: string)
    ensures ValidConfigValue(name, 128) <==> Shown(name)
  {
  }

  lemma ProjectedBits(c: bv32)
    ensures ProjectedCaps(ObservedNUT, c) <==> c == 65536 || c == 65538 || c == 131072 || c == 131074
    ensures (c == 65536 || c == 131072 ==> !Metered(c)) && (c == 65538 || c == 131074 ==> Metered(c))
  {
  }

  /** A row of a firmware profile: the nine outlets of one model with a button each, or the eight of the other in two groups,
      where only the first has a button and nothing is measured. */
  lemma FirmwareRowsExactly(p: Profile, count: nat, i: nat, row: Row)
    requires i < if p == UPS2UPro then 9 else 8
    ensures RowOk(p, FirmwareProfile, count, i, row) <==>
      && SoundRow(count, i, row)
      && match p
         case UPS2UPro =>
           (row.capabilities.None? || row.capabilities == Some(65539)) && row.relayGroup == i + 1 && row.buttonGroup == i + 1
         case UPS26 =>
           && (row.capabilities.None? || row.capabilities == Some(if i < 4 then 65549 else 65541))
           && row.relayGroup == (if i < 4 then 1 else 2) && row.buttonGroup == (if i < 4 then 1 else 0)
           && (i >= 4 ==> row.buttonState.None?)
           && row.voltage.None? && row.current.None? && row.powerW.None? && row.powerFactor.None?
           && row.energyDay.None? && row.energyWeek.None? && row.energyMonth.None?
  {
    hide ValidConfigValue, Shown;
    NameIsShown(row.name);
  }

  predicate Within64(n: Option<int>) {
    n.Some? ==> 0 <= n.value < 0x8000_0000_0000_0000
  }

  /** Which reports are sent. Groups of observed and carrier rows open in order, each one above all before it, and a group has
      one relay state. */
  lemma ReportsExactly(report: Report)
    ensures ReportOk(report) <==>
      && report.headerOk
      && (var b := report.battery;
          && Within64(b.available) && Within64(b.ready) && Within64(b.budget) && (b.level.Some? ==> 0 <= b.level.value <= 100)
          && (b.available.Some? && b.ready.Some? ==> b.ready.value <= b.available.value)
          && (b.runtime.Some? ==> 0 <= b.runtime.value <= 2_678_400)
          && NotNegative(b.output) && NotNegative(b.outputVoltage) && NotNegative(b.inputVoltage) && NotNegative(b.outputCurrent)
          && (b.powerFactor.Some? ==> 0.0 <= b.powerFactor.value <= 1.0))
      && (report.smartPower.Some? ==> report.smartPower.value & (if report.profile == UPS2UPro then 0x20 else 0x70) == 0)
      && (var n := |report.outlets|;
          if report.source == ObservedNUT then 1 <= n <= 64 else n == if report.profile == UPS2UPro then 9 else 8)
      && (forall i :: 0 <= i < |report.outlets| ==> RowOk(report.profile, report.source, |report.outlets|, i, report.outlets[i]))
      && (report.source != FirmwareProfile ==> InOrder(report.outlets) && SameState(report.outlets))
  {
    hide RowOk, InOrder, FirstOccurrence, RowGroups;
    OrderExactly(report.outlets);
    if report.smartPower.Some? {
      SmartMasks(report.smartPower.value);
    }
  }

  lemma SmartMasks(c: bv8)
    ensures c & !SpecFor(UPS2UPro).smartPowerCaps == c & 0x20 && c & !SpecFor(UPS26).smartPowerCaps == c & 0x70
  {
  }

  predicate SameState(rows: seq<Row>) {
    forall i, j :: 0 <= i < j < |rows| && rows[i].relayGroup == rows[j].relayGroup ==> rows[i].relay == rows[j].relay
  }

  /** Groups are numbered from 1 on, and all smaller numbers occur before a number does. */
  predicate InOrder(rows: seq<Row>) {
    && (forall i :: 0 <= i < |rows| ==> rows[i].relayGroup >= 1)
    && (forall i, g :: 0 <= i < |rows| && 1 <= g < rows[i].relayGroup ==> OccursBefore(rows, i, g))
  }

  predicate OccursBefore(rows: seq<Row>, i: nat, g: int) {
    exists j :: 0 <= j < i && j < |rows| && rows[j].relayGroup == g
  }

  lemma OrderExactly(rows: seq<Row>)
    ensures FirstOccurrence(RowGroups(rows)) <==> InOrder(rows)
  {
    hide Highest;
    var numbers := RowGroups(rows);
    if FirstOccurrence(numbers) {
      forall i, g | 0 <= i < |rows| && 1 <= g < rows[i].relayGroup
        ensures OccursBefore(rows, i, g)
      {
        FirstOccurrencePrefix(numbers, i);
        AllUsed(numbers[..i], g);
        var j :| 0 <= j < i && numbers[..i][j] == g;
        assert rows[j].relayGroup == g;
      }
    }
    if InOrder(rows) {
      forall i | 0 <= i < |rows|
        ensures 1 <= numbers[i] <= Highest(numbers[..i]) + 1
      {
        HighestBounds(numbers[..i]);
        forall j | 0 <= j < i
          ensures rows[j].relayGroup <= Highest(numbers[..i])
        {
          assert numbers[..i][j] == rows[j].relayGroup;
        }
        assert !OccursBefore(rows, i, Highest(numbers[..i]) + 1);
      }
    }
  }
}
