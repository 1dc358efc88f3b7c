/** Dense numbering of a list of keys: equal keys get equal numbers, new keys the next free one. */
module Numbering {
  function Highest(numbers: seq<int>): nat {
    if numbers == [] then 0
    else
      var h := Highest(numbers[..|numbers| - 1]);
      if numbers[|numbers| - 1] > h then numbers[|numbers| - 1] else h
  }

  function NumberFor<K(==)>(keys: seq<K>, numbers: seq<int>, key: K): int
    requires |keys| == |numbers|
  {
    if keys == [] then 1
    else if keys[|keys| - 1] == key then numbers[|keys| - 1]
    else if key in keys then NumberFor(keys[..|keys| - 1], numbers[..|keys| - 1], key)
    else Highest(numbers) + 1
  }

  function Numbers<K(==)>(keys: seq<K>): (numbers: seq<int>)
    ensures |numbers| == |keys|
  {
    if keys == [] then []
    else
      var before := keys[..|keys| - 1];
      Numbers(before) + [NumberFor(before, Numbers(before), keys[|keys| - 1])]
  }

  /** Numbers 1, 2, 3, ... appear for the first time in this order: each is at most one above all before it. */
  ghost predicate FirstOccurrence(numbers: seq<int>) {
    forall i :: 0 <= i < |numbers| ==> 1 <= numbers[i] <= Highest(numbers[..i]) + 1
  }

  ghost predicate SameKeySameNumber<K>(keys: seq<K>, numbers: seq<int>)
    requires |keys| == |numbers|
  {
    forall i, j :: 0 <= i < |keys| && 0 <= j < |keys| ==> (numbers[i] == numbers[j] <==> keys[i] == keys[j])
  }

  lemma HighestAppend(numbers: seq<int>, n: int)
    ensures Highest(numbers + [n]) == if n > Highest(numbers) then n else Highest(numbers)
  {
    assert (numbers + [n])[..|numbers|] == numbers;
  }

  lemma {:induction false} HighestBounds(numbers: seq<int>)
    ensures forall i :: 0 <= i < |numbers| ==> numbers[i] <= Highest(numbers)
  {
    if numbers != [] {
      HighestBounds(numbers[..|numbers| - 1]);
    }
  }

  /** In first-occurrence order every number up to the highest is in use. */
  lemma {:induction false} AllUsed(numbers: seq<int>, g: int)
    requires FirstOccurrence(numbers) && 1 <= g <= Highest(numbers)
    ensures g in numbers
  {
    var before, n := numbers[..|numbers| - 1], numbers[|numbers| - 1];
    if g != n {
      FirstOccurrencePrefix(numbers, |before|);
      assert n <= Highest(numbers[..|before|]) + 1;
      AllUsed(before, g);
    }
  }

  lemma FirstOccurrencePrefix(numbers: seq<int>, k: nat)
    requires FirstOccurrence(numbers) && k <= |numbers|
    ensures FirstOccurrence(numbers[..k])
  {
    forall i | 0 <= i < k
      ensures 1 <= numbers[..k][i] <= Highest(numbers[..k][..i]) + 1
    {
      assert numbers[..k][..i] == numbers[..i];
    }
  }

  lemma FirstOccurrenceAppend(numbers: seq<int>, n: int)
    requires FirstOccurrence(numbers) && 1 <= n <= Highest(numbers) + 1
    ensures FirstOccurrence(numbers + [n])
  {
    var all := numbers + [n];
    forall i | 0 <= i < |all|
      ensures 1 <= all[i] <= Highest(all[..i]) + 1
    {
      assert all[..i] == numbers[..i];
      if i == |numbers| {
        assert all[..i] == numbers;
      }
    }
  }

  lemma {:induction false} NumberForKnown<K>(keys: seq<K>, numbers: seq<int>, key: K, i: nat)
    requires |keys| == |numbers| && i < |keys| && keys[i] == key && SameKeySameNumber(keys, numbers)
    ensures NumberFor(keys, numbers, key) == numbers[i]
  {
    if keys[|keys| - 1] != key {
      NumberForKnown(keys[..|keys| - 1], numbers[..|keys| - 1], key, i);
    }
  }

  lemma NumberForNew<K>(keys: seq<K>, numbers: seq<int>, key: K)
    requires |keys| == |numbers| && key !in keys
    ensures NumberFor(keys, numbers, key) == Highest(numbers) + 1
  {
  }

  lemma SameKeyAppend<K>(keys: seq<K>, numbers: seq<int>, key: K, n: int)
    requires |keys| == |numbers| && SameKeySameNumber(keys, numbers)
    requires forall i :: 0 <= i < |keys| ==> (numbers[i] == n <==> keys[i] == key)
    ensures SameKeySameNumber(keys + [key], numbers + [n])
  {
  }

  /** The number given to the next key is right for it: that of an equal key, or one above all numbers so far. */
  lemma NumberForFits<K>(keys: seq<K>, numbers: seq<int>, key: K)
    requires |keys| == |numbers| && SameKeySameNumber(keys, numbers) && FirstOccurrence(numbers)
    ensures var n := NumberFor(keys, numbers, key);
      && 1 <= n <= Highest(numbers) + 1
      && (n == Highest(numbers) + 1 <==> key !in keys)
      && forall i :: 0 <= i < |keys| ==> (numbers[i] == n <==> keys[i] == key)
  {
    HighestBounds(numbers);
    if key in keys {
      var i :| 0 <= i < |keys| && keys[i] == key;
      NumberForKnown(keys, numbers, key, i);
    } else {
      NumberForNew(keys, numbers, key);
    }
  }

  ghost predicate GoodNumbers<K>(keys: seq<K>, numbers: seq<int>) {
    |numbers| == |keys| && SameKeySameNumber(keys, numbers) && FirstOccurrence(numbers)
  }

  lemma NumbersAppend<K>(keys: seq<K>, key: K)
    ensures Numbers(keys + [key]) == Numbers(keys) + [NumberFor(keys, Numbers(keys), key)]
  {
    assert (keys + [key])[..|keys|] == keys;
  }

  lemma GoodAppend<K>(keys: seq<K>, numbers: seq<int>, key: K)
    requires GoodNumbers(keys, numbers)
    ensures GoodNumbers(keys + [key], numbers + [NumberFor(keys, numbers, key)])
  {
    var n := NumberFor(keys, numbers, key);
    NumberForFits(keys, numbers, key);
    FirstOccurrenceAppend(numbers, n);
    SameKeyAppend(keys, numbers, key, n);
  }

  /** The numbering is dense, in first-occurrence order, and separates keys exactly. */
  lemma {:induction false} NumbersAreGood<K>(keys: seq<K>)
    ensures GoodNumbers(keys, Numbers(keys))
  {
    if keys != [] {
      var before, key := keys[..|keys| - 1], keys[|keys| - 1];
      NumbersAreGood(before);
      NumbersAppend(before, key);
      GoodAppend(before, Numbers(before), key);
      assert before + [key] == keys;
    }
  }
}

/** From NUT variables to the canonical outlet view: outlets, their relay groups, and the state of each group. */
module OutletModel {
  import opened Basics
  import opened Text
  import opened Numbering

  const MAX_OUTLETS := 64
  const MAX_POWER := 1_000_000_000.0
  const MAX_RUNTIME := 2_678_400.0

  type Variables = map<string, string>

  datatype OutletType = UnknownType | AC | USB

  datatype RelayState = Unknown | On | Off | Mixed

  datatype Truth = Truth(value: bool, known: bool)

  datatype Measurement = Measurement(value: real, known: bool)

  const UNMEASURED := Measurement(0.0, false)
  const UNDECIDED := Truth(false, false)

  /** Number parsing (None for malformed, infinite and not-a-number text) and the classification of physical
      outlet types, both arbitrary. */
  datatype Readers = Readers(number: string -> Option<real>, classify: (string, string) -> OutletType)

  datatype Outlet = Outlet(index: int, nativeID: string, nativeGroupID: string, relayGroup: int, name: string, nameObserved: bool,
                           kind: OutletType, switchable: Truth, powerMeter: bool, relay: RelayState,
                           voltage: Measurement, current: Measurement, powerW: Measurement, powerFactor: Measurement)

  datatype OutletGroup = OutletGroup(index: int, nativeID: string, sourceIndex: int, members: seq<int>,
                                     switchable: Truth, switchablePresent: bool, relay: RelayState)

  datatype NativeGroup = NativeGroup(sourceIndex: int, nativeID: string, outletCount: int, countPresent: bool, countKnown: bool,
                                     switchable: Truth, switchablePresent: bool, relay: RelayState, relayPresent: bool)

  // ---- Reading one variable ---------------------------------------------------------------------

  function Digit(n: nat): char
    requires n < 10
  {
    (n + '0' as int) as char
  }

  function Decimal(n: nat): string
    requires n < 100
  {
    if n < 10 then [Digit(n)] else [Digit(n / 10), Digit(n % 10)]
  }

  function OutletKey(index: nat, field: string): string
    requires index < 100
  {
    "outlet." + Decimal(index) + "." + field
  }

  function GroupKey(index: nat, field: string): string
    requires index < 100
  {
    "outlet.group." + Decimal(index) + "." + field
  }

  function BoundedIntegral(r: Readers, raw: string, minimum: int, maximum: int): (n: Option<int>)
    ensures n.Some? ==> minimum <= n.value <= maximum
  {
    match r.number(Trim(raw, true))
    case None => None
    case Some(v) =>
      if v == v.Floor as real && minimum as real <= v <= maximum as real then Some(v.Floor) else None
  }

  function OptionalText(raw: string): (t: string)
    ensures t == "" || ValidConfigValue(t, 128)
  {
    var t := Trim(raw, true);
    if ValidConfigValue(t, 128) then t else ""
  }

  /** An opaque identifier is kept byte for byte or dropped. */
  function OpaqueID(vars: Variables, key: string): (t: string)
    ensures t != "" ==> key in vars && t == vars[key] && ValidConfigValue(t, 128)
  {
    if key in vars && ValidConfigValue(vars[key], 128) then vars[key] else ""
  }

  function ParseRelay(raw: string): (s: RelayState)
    ensures s != Mixed
  {
    var t := LowerWord(Trim(raw, true));
    if t == "on" then On else if t == "off" then Off else Unknown
  }

  function ParseTruth(raw: string): Truth {
    var t := LowerWord(Trim(raw, true));
    if t == "yes" || t == "true" || t == "on" || t == "1" then Truth(true, true)
    else if t == "no" || t == "false" || t == "off" || t == "0" then Truth(false, true)
    else UNDECIDED
  }

  function ParseMeasurement(r: Readers, raw: string, minimum: real, maximum: real): (m: Measurement)
    ensures m.known ==> minimum <= m.value <= maximum
  {
    match r.number(Trim(raw, true))
    case None => UNMEASURED
    case Some(v) => if minimum <= v <= maximum then Measurement(v, true) else UNMEASURED
  }

  function Measure(r: Readers, vars: Variables, key: string, minimum: real, maximum: real): (m: Measurement)
    ensures m.known ==> key in vars && minimum <= m.value <= maximum
  {
    if key !in vars || Trim(vars[key], true) == "" then UNMEASURED
    else ParseMeasurement(r, vars[key], minimum, maximum)
  }

  // ---- Native group rows ------------------------------------------------------------------------

  function NativeRow(r: Readers, vars: Variables, index: nat): NativeGroup
    requires index < 100
  {
    var size := if GroupKey(index, "count") in vars then BoundedIntegral(r, vars[GroupKey(index, "count")], 0, MAX_OUTLETS) else None;
    var switchable := GroupKey(index, "switchable");
    var status := GroupKey(index, "status");
    NativeGroup(index, OpaqueID(vars, GroupKey(index, "id")),
                if size.Some? then size.value else 0, GroupKey(index, "count") in vars, size.Some?,
                if switchable in vars then ParseTruth(vars[switchable]) else UNDECIDED, switchable in vars,
                if status in vars then ParseRelay(vars[status]) else Unknown, status in vars)
  }

  /** How many rows carry an identifier. */
  function Count(rows: seq<NativeGroup>, id: string): nat {
    if rows == [] then 0 else Count(rows[..|rows| - 1], id) + if rows[|rows| - 1].nativeID == id then 1 else 0
  }

  /** The lookup table holds exactly the rows whose non-empty identifier occurs once. */
  ghost predicate TableOf(rows: seq<NativeGroup>, byID: map<string, NativeGroup>) {
    && (forall id :: id in byID <==> id != "" && Count(rows, id) == 1)
    && (forall id :: id in byID ==> byID[id].nativeID == id && byID[id] in rows)
  }

  lemma CountAppends(rows: seq<NativeGroup>, row: NativeGroup)
    ensures forall id :: Count(rows + [row], id) == Count(rows, id) + if row.nativeID == id then 1 else 0
  {
    assert (rows + [row])[..|rows|] == rows;
  }

  predicate Ambiguous(rows: seq<NativeGroup>, id: string) {
    id != "" && Count(rows, id) > 1
  }

  lemma TableEmpty()
    ensures TableOf([], map[]) && forall id :: !Ambiguous([], id)
  {
  }

  /** The table and the set of repeated identifiers after one more row. */
  lemma TableNext(rows: seq<NativeGroup>, row: NativeGroup, byID: map<string, NativeGroup>, ambiguous: set<string>)
    requires TableOf(rows, byID) && forall id :: id in ambiguous <==> Ambiguous(rows, id)
    ensures var id, all := row.nativeID, rows + [row];
      var settled := id == "" || id in ambiguous;
      var byID' := if settled then byID else if id in byID then byID - {id} else byID[id := row];
      var ambiguous' := if !settled && id in byID then ambiguous + {id} else ambiguous;
      TableOf(all, byID') && forall other :: other in ambiguous' <==> Ambiguous(all, other)
  {
    CountAppends(rows, row);
  }

  ghost function NativeRows(r: Readers, vars: Variables): (rows: seq<NativeGroup>) {
    if "outlet.group.count" !in vars then []
    else match BoundedIntegral(r, vars["outlet.group.count"], 0, MAX_OUTLETS)
      case None => []
      case Some(count) => seq(count, i requires 0 <= i < count => NativeRow(r, vars, i + 1))
  }

  /** Reads the rows in order; an identifier seen twice is dropped from the table for good. */
  method ReadNativeGroupMetadata(r: Readers, vars: Variables) returns (rows: seq<NativeGroup>, byID: map<string,
                                 NativeGroup>)
    ensures rows == NativeRows(r, vars)
    ensures TableOf(rows, byID)
  {
    hide NativeRow, BoundedIntegral, TableOf, Ambiguous;
    rows, byID := [], map[];
    TableEmpty();
    if "outlet.group.count" !in vars {
      return;
    }
    var parsed := BoundedIntegral(r, vars["outlet.group.count"], 0, MAX_OUTLETS);
    if parsed.None? {
      return;
    }
    var count := parsed.value;
    var ambiguous: set<string> := {};
    for index := 1 to count + 1
      invariant |rows| == index - 1
      invariant forall i :: 0 <= i < |rows| ==> rows[i] == NativeRow(r, vars, i + 1)
      invariant TableOf(rows, byID)
      invariant forall id :: id in ambiguous <==> Ambiguous(rows, id)
    {
      var row := NativeRow(r, vars, index);
      TableNext(rows, row, byID, ambiguous);
      rows := rows + [row];
      if row.nativeID == "" || row.nativeID in ambiguous {
        continue;
      }
      if row.nativeID in byID {
        byID := byID - {row.nativeID};
        ambiguous := ambiguous + {row.nativeID};
        continue;
      }
      byID := byID[row.nativeID := row];
    }
  }

  // ---- Relay groups -----------------------------------------------------------------------------

  /** Outlets share a group exactly when they carry the same valid identifier; one without an identifier is alone. */
  datatype Key = Shared(id: string) | Single(index: int)

  function GroupID(vars: Variables, index: nat): string
    requires index < 100
  {
    OpaqueID(vars, OutletKey(index, "groupid"))
  }

  function KeyOf(id: string, index: nat): Key {
    if id == "" then Single(index) else Shared(id)
  }

  /** The group identifiers of the outlets, in order. */
  function GroupIDs(vars: Variables, count: nat): (ids: seq<string>)
    requires count <= MAX_OUTLETS
    ensures |ids| == count
    ensures forall i :: 0 <= i < count ==> ids[i] == GroupID(vars, i + 1)
  {
    seq(count, i requires 0 <= i < count => GroupID(vars, i + 1))
  }

  function KeysOf(ids: seq<string>): (keys: seq<Key>)
    ensures |keys| == |ids|
    ensures forall i :: 0 <= i < |ids| ==> keys[i] == KeyOf(ids[i], i + 1)
  {
    seq(|ids|, i requires 0 <= i < |ids| => KeyOf(ids[i], i + 1))
  }

  function OutletName(index: nat): (name: string)
    requires index < 100
    ensures ValidConfigValue(name, 128)
  {
    "Outlet " + Decimal(index)
  }

  function BlankOutlet(index: nat, nativeID: string, groupID: string, relayGroup: int): Outlet
    requires index < 100
  {
    Outlet(index, nativeID, groupID, relayGroup, OutletName(index), false, UnknownType, UNDECIDED, false, Unknown,
           UNMEASURED, UNMEASURED, UNMEASURED, UNMEASURED)
  }

  /** The 1-based positions of a number, in order: the members of a group. */
  function Positions(numbers: seq<int>, g: int): seq<int> {
    if numbers == [] then []
    else
      Positions(numbers[..|numbers| - 1], g) + if numbers[|numbers| - 1] == g then [|numbers|] else []
  }

  lemma PositionsAppend(numbers: seq<int>, n: int, g: int)
    ensures Positions(numbers + [n], g) == Positions(numbers, g) + if n == g then [|numbers| + 1] else []
  {
    assert (numbers + [n])[..|numbers|] == numbers;
  }

  lemma {:induction false} PositionsAre(numbers: seq<int>, g: int)
    ensures forall p :: p in Positions(numbers, g) <==> 1 <= p <= |numbers| && numbers[p - 1] == g
  {
    if numbers != [] {
      PositionsAre(numbers[..|numbers| - 1], g);
    }
  }

  lemma {:induction false} NoPositions(numbers: seq<int>, g: int)
    requires g > Highest(numbers)
    ensures Positions(numbers, g) == []
  {
    if numbers != [] {
      NoPositions(numbers[..|numbers| - 1], g);
    }
  }

  function NumberedOutlet(vars: Variables, index: nat, relayGroup: int): Outlet
    requires index < 100
  {
    BlankOutlet(index, OpaqueID(vars, OutletKey(index, "id")), GroupID(vars, index), relayGroup)
  }

  /** Groups for a numbering: group k lists the outlets numbered k and carries their common identifier. */
  ghost predicate GroupsFor(ids: seq<string>, numbers: seq<int>, groups: seq<OutletGroup>)
    requires |ids| == |numbers|
  {
    |groups| == Highest(numbers) && MembersFit(numbers, groups) && IDsFit(ids, numbers, groups)
  }

  ghost predicate Unattached(groups: seq<OutletGroup>) {
    forall k :: 0 <= k < |groups| ==> groups[k].sourceIndex == 0 && !groups[k].switchablePresent && groups[k].switchable == UNDECIDED
  }

  /** The map from keys to group positions that the numbering loop keeps. */
  ghost predicate Indexed(keys: seq<Key>, numbers: seq<int>, groupByKey: map<Key, int>)
    requires |keys| == |numbers|
  {
    && (forall key :: key in groupByKey <==> key in keys)
    && (forall i :: 0 <= i < |keys| ==> keys[i] in groupByKey && groupByKey[keys[i]] + 1 == numbers[i])
  }

  lemma IndexedNext(keys: seq<Key>, numbers: seq<int>, groupByKey: map<Key, int>, key: Key)
    requires GoodNumbers(keys, numbers) && Indexed(keys, numbers, groupByKey)
    ensures var offset := if key in groupByKey then groupByKey[key] else Highest(numbers);
      NumberFor(keys, numbers, key) == offset + 1 && Indexed(keys + [key], numbers + [offset + 1], groupByKey[key := offset])
  {
    NumberForFits(keys, numbers, key);
    if key in groupByKey {
      var i :| 0 <= i < |keys| && keys[i] == key;
      NumberForKnown(keys, numbers, key, i);
    }
  }

  /** The group list after the next outlet joined the group at a position, which may be a new one. */
  function Join(groups: seq<OutletGroup>, offset: nat, id: string, index: int): (joined: seq<OutletGroup>)
    requires offset <= |groups|
    ensures |joined| == if offset < |groups| then |groups| else |groups| + 1
    ensures forall k :: 0 <= k < |groups| && k != offset ==> joined[k] == groups[k]
    ensures offset < |groups| ==> joined[offset] == groups[offset].(members := groups[offset].members + [index])
    ensures offset == |groups| ==> joined[offset] == OutletGroup(offset + 1, id, 0, [index], UNDECIDED, false, Unknown)
  {
    if offset < |groups| then groups[offset := groups[offset].(members := groups[offset].members + [index])]
    else groups + [OutletGroup(offset + 1, id, 0, [index], UNDECIDED, false, Unknown)]
  }

  ghost predicate MembersFit(numbers: seq<int>, groups: seq<OutletGroup>) {
    forall k :: 0 <= k < |groups| ==> groups[k].index == k + 1 && groups[k].members == Positions(numbers, k + 1)
  }

  ghost predicate IDsFit(ids: seq<string>, numbers: seq<int>, groups: seq<OutletGroup>)
    requires |ids| == |numbers|
  {
    forall i :: 0 <= i < |numbers| && 1 <= numbers[i] <= |groups| ==> groups[numbers[i] - 1].nativeID == ids[i]
  }

  lemma GroupsNext(ids: seq<string>, numbers: seq<int>, groups: seq<OutletGroup>, offset: nat, id: string)
    requires |ids| == |numbers| && GroupsFor(ids, numbers, groups) && offset <= |groups|
    requires offset < |groups| ==> groups[offset].nativeID == id
    ensures GroupsFor(ids + [id], numbers + [offset + 1], Join(groups, offset, id, |numbers| + 1))
  {
    HighestAppend(numbers, offset + 1);
    MembersNext(numbers, groups, offset, id);
    IDsNext(ids, numbers, groups, offset, id);
  }

  lemma MembersNext(numbers: seq<int>, groups: seq<OutletGroup>, offset: nat, id: string)
    requires MembersFit(numbers, groups) && |groups| == Highest(numbers) && offset <= |groups|
    ensures MembersFit(numbers + [offset + 1], Join(groups, offset, id, |numbers| + 1))
  {
    hide Join, Positions, Highest;
    var joined, all := Join(groups, offset, id, |numbers| + 1), numbers + [offset + 1];
    forall k | 0 <= k < |joined|
      ensures joined[k].index == k + 1 && joined[k].members == Positions(all, k + 1)
    {
      MemberNext(numbers, groups, offset, id, k);
    }
  }

  lemma MemberNext(numbers: seq<int>, groups: seq<OutletGroup>, offset: nat, id: string, k: nat)
    requires MembersFit(numbers, groups) && |groups| == Highest(numbers) && offset <= |groups|
    requires k < |Join(groups, offset, id, |numbers| + 1)|
    ensures var g := Join(groups, offset, id, |numbers| + 1)[k];
      g.index == k + 1 && g.members == Positions(numbers + [offset + 1], k + 1)
  {
    hide Join, Positions, Highest;
    PositionsAppend(numbers, offset + 1, k + 1);
    if k == |groups| {
      NoPositions(numbers, k + 1);
    }
  }

  lemma IDsNext(ids: seq<string>, numbers: seq<int>, groups: seq<OutletGroup>, offset: nat, id: string)
    requires |ids| == |numbers| && IDsFit(ids, numbers, groups) && |groups| == Highest(numbers) && offset <= |groups|
    requires offset < |groups| ==> groups[offset].nativeID == id
    ensures IDsFit(ids + [id], numbers + [offset + 1], Join(groups, offset, id, |numbers| + 1))
  {
    HighestBounds(numbers);
  }

  predicate SizeAgrees(row: NativeGroup, size: nat) {
    row.countPresent ==> row.countKnown && row.outletCount == size
  }

  /** A group takes its source row from the table when its identifier is there and a stated size agrees. */
  function Attach(g: OutletGroup, byID: map<string, NativeGroup>): OutletGroup {
    if g.nativeID == "" || g.nativeID !in byID || !SizeAgrees(byID[g.nativeID], |g.members|) then g
    else
      var row := byID[g.nativeID];
      g.(sourceIndex := row.sourceIndex, switchable := row.switchable, switchablePresent := row.switchablePresent)
  }

  // ---- The canonical view -----------------------------------------------------------------------

  datatype Availability = Available | Stale | Unavailable

  datatype Beeper = BeeperUnknown | BeeperEnabled | BeeperDisabled | BeeperMuted

  datatype Status = Status(onBattery: Truth, charging: Truth)

  datatype Power = Power(chargePercent: Measurement, runtime: Measurement, inputVoltage: Measurement, outputVoltage: Measurement,
                         outputCurrent: Measurement, outputPower: Measurement, outputNominal: Measurement, powerFactor: Measurement)

  const NO_POWER := Power(UNMEASURED, UNMEASURED, UNMEASURED, UNMEASURED, UNMEASURED, UNMEASURED, UNMEASURED, UNMEASURED)

  function FallbackOutlets(): (outlets: seq<Outlet>)
    ensures |outlets| == 8
  {
    seq(8, i requires 0 <= i < 8 => BlankOutlet(i + 1, "", "", i / 4 + 1))
  }

  function FallbackGroups(): seq<OutletGroup> {
    [OutletGroup(1, "", 0, [1, 2, 3, 4], UNDECIDED, false, Unknown), OutletGroup(2, "", 0, [5, 6, 7, 8], UNDECIDED, false, Unknown)]
  }

  function ObservedCount(r: Readers, vars: Variables): (n: Option<int>)
    ensures n.Some? ==> 1 <= n.value <= MAX_OUTLETS
  {
    if "outlet.count" !in vars then None else BoundedIntegral(r, vars["outlet.count"], 1, MAX_OUTLETS)
  }

  /** Everything one outlet reports about itself; a group or global switchable value is only a default. */
  function Telemetry(r: Readers, vars: Variables, groups: seq<OutletGroup>, o: Outlet): Outlet
    requires 0 <= o.index < 100
  {
    var desc, name := OutletKey(o.index, "desc"), OutletKey(o.index, "name");
    var text := if desc in vars && Trim(vars[desc], true) != "" then OptionalText(vars[desc])
                else if name in vars && Trim(vars[name], true) != "" then OptionalText(vars[name])
                else "";
    var global := if "outlet.switchable" in vars then ParseTruth(vars["outlet.switchable"]) else UNDECIDED;
    var inherited := if 1 <= o.relayGroup <= |groups| && groups[o.relayGroup - 1].switchablePresent
                     then groups[o.relayGroup - 1].switchable else global;
    var switchable, status := OutletKey(o.index, "switchable"), OutletKey(o.index, "status");
    Outlet(o.index, o.nativeID, o.nativeGroupID, o.relayGroup,
           if text != "" then text else o.name, text != "" || o.nameObserved,
           r.classify(Lookup(vars, OutletKey(o.index, "type")), Lookup(vars, OutletKey(o.index, "designator"))),
           if switchable in vars then ParseTruth(vars[switchable]) else inherited,
           OutletKey(o.index, "current") in vars || OutletKey(o.index, "realpower") in vars || OutletKey(o.index, "power") in vars,
           if status in vars then ParseRelay(vars[status]) else o.relay,
           Measure(r, vars, OutletKey(o.index, "voltage"), 0.0, 1000.0),
           Measure(r, vars, OutletKey(o.index, "current"), 0.0, 10000.0),
           Measure(r, vars, OutletKey(o.index, "realpower"), 0.0, MAX_POWER),
           Measure(r, vars, OutletKey(o.index, "powerfactor"), 0.0, 1.0))
  }

  function Lookup(vars: Variables, key: string): string {
    if key in vars then vars[key] else ""
  }

  // ---- Group states -----------------------------------------------------------------------------

  /** The order-dependent scan of the source, with the meaning that is exact for on and off. */
  function DeriveFrom(first: RelayState, rest: seq<RelayState>): RelayState {
    if rest == [] then first
    else if rest[0] == Unknown then Unknown
    else if rest[0] != first then Mixed
    else DeriveFrom(first, rest[1..])
  }

  function DeriveGroupRelay(members: seq<RelayState>): RelayState {
    if members == [] || (members[0] != On && members[0] != Off) then Unknown else DeriveFrom(members[0], members[1..])
  }

  /** A derived on or off means that all members, and at least one, are observed in that state. */
  lemma DerivedIsExact(members: seq<RelayState>, s: RelayState)
    requires s == On || s == Off
    ensures DeriveGroupRelay(members) == s <==> members != [] && AllAre(members, s)
  {
    if members != [] && (members[0] == On || members[0] == Off) {
      DeriveFromIsExact(members[0], members[1..], s);
    }
    HeadAndTail(members, s);
  }

  lemma {:induction false} DeriveFromIsExact(first: RelayState, rest: seq<RelayState>, s: RelayState)
    requires first == On || first == Off
    requires s == On || s == Off
    ensures DeriveFrom(first, rest) == s <==> first == s && AllAre(rest, s)
  {
    if rest != [] {
      DeriveFromIsExact(first, rest[1..], s);
    }
    HeadAndTail(rest, s);
  }

  ghost predicate AllAre(list: seq<RelayState>, s: RelayState) {
    forall i :: 0 <= i < |list| ==> list[i] == s
  }

  lemma HeadAndTail(list: seq<RelayState>, s: RelayState)
    ensures list != [] ==> (AllAre(list, s) <==> (list[0] == s && AllAre(list[1..], s)))
  {
    if list != [] && list[0] == s && AllAre(list[1..], s) {
      forall i | 0 <= i < |list|
        ensures list[i] == s
      {
        assert i > 0 ==> list[i] == list[1..][i - 1];
      }
    }
  }

  ghost predicate Conflicts(members: seq<RelayState>, group: RelayState) {
    exists m :: m in members && (m == On || m == Off) && m != group
  }

  method RelayEvidenceConflicts(members: seq<RelayState>, group: RelayState) returns (conflict: bool)
    ensures conflict <==> Conflicts(members, group)
  {
    for i := 0 to |members|
      invariant forall j :: 0 <= j < i ==> !((members[j] == On || members[j] == Off) && members[j] != group)
    {
      if (members[i] == On || members[i] == Off) && members[i] != group {
        assert members[i] in members;
        return true;
      }
    }
    return false;
  }

  method DeriveRelay(members: seq<RelayState>) returns (s: RelayState)
    ensures s == DeriveGroupRelay(members)
  {
    if |members| == 0 {
      return Unknown;
    }
    var first := members[0];
    if first != On && first != Off {
      return Unknown;
    }
    ghost var rest := members[1..];
    for i := 1 to |members|
      invariant DeriveFrom(first, members[i..]) == DeriveFrom(first, rest)
    {
      assert members[i..][1..] == members[i + 1..];
      if members[i] == Unknown {
        return Unknown;
      }
      if members[i] != first {
        return Mixed;
      }
    }
    return first;
  }

  function RelaysOf(outlets: seq<Outlet>, members: seq<int>): seq<RelayState> {
    if members == [] then []
    else
      var p := members[|members| - 1];
      RelaysOf(outlets, members[..|members| - 1]) + if 1 <= p <= |outlets| then [outlets[p - 1].relay] else []
  }

  lemma {:induction false} RelaysOfHas(outlets: seq<Outlet>, members: seq<int>, p: int)
    requires p in members && 1 <= p <= |outlets|
    ensures outlets[p - 1].relay in RelaysOf(outlets, members)
  {
    if members[|members| - 1] != p {
      RelaysOfHas(outlets, members[..|members| - 1], p);
    } else {
      assert RelaysOf(outlets, members)[|RelaysOf(outlets, members)| - 1] == outlets[p - 1].relay;
    }
  }

  /** The state of a group: its own row decides unless it is absent; a row that contradicts a member is dropped. */
  ghost function GroupRelay(g: OutletGroup, outlets: seq<Outlet>, rows: seq<NativeGroup>): RelayState {
    var members := RelaysOf(outlets, g.members);
    if g.sourceIndex == 0 then DeriveGroupRelay(members)
    else if !(1 <= g.sourceIndex <= |rows|) then Unknown
    else
      var row := rows[g.sourceIndex - 1];
      if !row.relayPresent then DeriveGroupRelay(members)
      else if row.relay == Unknown || Conflicts(members, row.relay) then Unknown
      else row.relay
  }

  /** A group reported on or off never contradicts the observed state of a member. */
  lemma GroupNeverContradicts(g: OutletGroup, outlets: seq<Outlet>, rows: seq<NativeGroup>, p: int)
    requires p in g.members && 1 <= p <= |outlets|
    requires GroupRelay(g, outlets, rows) == On || GroupRelay(g, outlets, rows) == Off
    ensures outlets[p - 1].relay == On || outlets[p - 1].relay == Off ==> outlets[p - 1].relay == GroupRelay(g, outlets, rows)
  {
    DerivedIsExact(RelaysOf(outlets, g.members), GroupRelay(g, outlets, rows));
    RelaysOfHas(outlets, g.members, p);
  }
}
