/** The device side of the controller's adoption protocol: the adoption state, the management text that a
    controller may send, and the transactional transformer that applies a decoded response. */
module Adoption {
  import opened Basics
  import opened Text
  import opened Hex

  const DEFAULT_KEY := "ba86f2bbe107c7c57eb5f2690775c712"

  /** A parsed URL. Parsing itself is a parameter of the model: every result holds for every parser. */
  datatype Url = Url(scheme: string, host: string, hostname: string, port: string, path: string,
                     plain: bool /* no user, query or fragment */)

  type UrlParser = string -> Option<Url>

  predicate AcceptableUrl(u: Url) {
    (u.scheme == "http" || u.scheme == "https") && u.host != "" && u.plain && u.path == "/inform"
  }

  /** validateInformURL and parseControllerURL accept the same texts. */
  predicate ValidInformUrl(parse: UrlParser, value: string) {
    0 < |value| <= 2048 && parse(value).Some? && AcceptableUrl(parse(value).value)
  }

  predicate HasScheme(parse: UrlParser, value: string, scheme: string) {
    ValidInformUrl(parse, value) && parse(value).value.scheme == scheme
  }

  function EffectivePort(u: Url): string {
    if u.port != "" then u.port else if EqualFold(u.scheme, "https") then "443" else "80"
  }

  predicate SameOrigin(left: Url, right: Url) {
    EqualFold(left.scheme, right.scheme) && EqualFold(left.hostname, right.hostname) && EffectivePort(left) == EffectivePort(right)
  }

  predicate AuthorizeTransition(parse: UrlParser, current: string, proposed: string) {
    ValidInformUrl(parse, current) && ValidInformUrl(parse, proposed) && SameOrigin(parse(current).value, parse(proposed).value)
  }

  /** Authorization is an equivalence on usable URLs, and it never changes the scheme. */
  lemma AuthorizeIsEquivalence(parse: UrlParser, a: string, b: string, c: string)
    requires ValidInformUrl(parse, a)
    ensures AuthorizeTransition(parse, a, a)
    ensures AuthorizeTransition(parse, a, b) ==> AuthorizeTransition(parse, b, a)
    ensures AuthorizeTransition(parse, a, b) && AuthorizeTransition(parse, b, c) ==> AuthorizeTransition(parse, a, c)
    ensures AuthorizeTransition(parse, a, b) ==> parse(a).value.scheme == parse(b).value.scheme
  {
    assert |ToLower("http")| == 4 && |ToLower("https")| == 5;
  }

  datatype Adoption = Adoption(authKey: string, informURL: string, cfgVersion: string, adopted: bool, useGCM: bool)
  {
    predicate DefaultKey() {
      EqualFold(authKey, DEFAULT_KEY)
    }

    predicate Valid(parse: UrlParser) {
      ValidKey(authKey) && ValidInformUrl(parse, informURL) && ValidConfigValue(cfgVersion, 128) &&
      (!adopted ==> DefaultKey() && !useGCM)
    }
  }

  predicate ValidKey(key: string) {
    |key| == 32 && IsHex(key)
  }

  lemma DefaultKeyIsValid()
    ensures ValidKey(DEFAULT_KEY)
  {
    var first, second := "ba86f2bbe107c7c5", "7eb5f2690775c712";
    assert DEFAULT_KEY == first + second;
    HexHalves(first, second);
  }

  lemma HexHalves(a: string, b: string)
    requires IsHex(a) && IsHex(b)
    ensures IsHex(a + b)
  {
  }

  function Pending(url: string): Adoption {
    Adoption(DEFAULT_KEY, url, "0", false, false)
  }

  datatype ResponseKind = Noop | SetParam | FactoryReset | Reboot | Upgrade | ReportedFirmware | RelayControl | IgnoredCommand

  datatype CycleIntent = CycleIntent(outletIndex: int, delayOff: int, delayOn: int)

  datatype Outcome = Outcome(kind: ResponseKind, interval: int, stateChanged: bool, urlChanged: bool, restart: bool,
                             upgradeVersion: string, cycleIntents: seq<CycleIntent>, unsupported: seq<string>)

  function Plain(kind: ResponseKind): Outcome {
    Outcome(kind, 0, false, false, false, "", [], [])
  }

  /** A response after JSON decoding. relayRows is None when the outlet table of a relayctl is refused. */
  datatype Response = Response(kind: string, command: string, interval: int, mgmtCfg: string, version: string,
                               relayRows: Option<seq<CycleIntent>>, systemCfg: string)

  /** A decrypted payload. The same bytes are decoded twice: exact holds the fields of a flat object of
      uniquely named strings, response what the general decoder reads; None where that decoder fails. */
  datatype Body = Body(size: nat, utf8: bool, exact: Option<map<string, string>>, response: Option<Response>)

  const MAX_RESPONSE := 0x4_0000
  const MAX_TEXT := 0x1_0000

  // ---- Management text -------------------------------------------------------------------------

  function NewlineFor(raw: string): (s: string)
    ensures |s| == |raw|
  {
    seq(|raw|, i requires 0 <= i < |raw| => if raw[i] == '\r' then '\n' else raw[i])
  }

  function MgmtLines(raw: string): seq<string> {
    Split(NewlineFor(raw), '\n')
  }

  function ParseConfigBoolean(value: string): Option<bool> {
    var v := LowerWord(value);
    if v in {"on", "enabled", "1", "enable", "active", "true"} then Some(true)
    else if v in {"off", "disabled", "0", "disable", "inactive", "false"} then Some(false)
    else None
  }

  function ApplySetting(parse: UrlParser, a: Adoption, name: string, value: string): Option<Adoption> {
    if name == "cfgversion" then
      if ValidConfigValue(value, 128) then Some(a.(cfgVersion := value)) else None
    else if name == "inform_url" then
      if ValidInformUrl(parse, value) then Some(a.(informURL := value)) else None
    else if name == "authkey" then
      if ValidKey(value) then Some(a.(authKey := ToLower(value))) else None
    else if name == "use_aes_gcm" then
      match ParseConfigBoolean(value)
      case None => None
      case Some(enabled) => Some(if enabled then a.(useGCM := true) else a)
    else Some(a)
  }

  /** What one line of management text amounts to. */
  datatype Entry = Blank | Bad | Setting(name: string, value: string)

  function MgmtEntry(raw: string): Entry {
    var line := Trim(raw, true);
    if line == "" then Blank
    else if |line| > 255 then Bad
    else match Cut(line)
      case None => Bad
      case Some((n, v)) =>
        var name, value := Trim(n, true), Trim(v, true);
        if ValidToken(name, 64) && |value| <= 255 then Setting(name, value) else Bad
  }

  function MgmtEntries(lines: seq<string>): (entries: seq<Entry>)
    ensures |entries| == |lines|
  {
    seq(|lines|, i requires 0 <= i < |lines| => MgmtEntry(lines[i]))
  }

  /** Settings take effect in order; a refused or repeated one refuses the whole text. */
  function ApplyEntries(parse: UrlParser, a: Adoption, seen: set<string>, entries: seq<Entry>): Option<Adoption>
    decreases |entries|
  {
    if entries == [] then Some(a)
    else match entries[0]
      case Blank => ApplyEntries(parse, a, seen, entries[1..])
      case Bad => None
      case Setting(name, value) =>
        if name in seen then None
        else match ApplySetting(parse, a, name, value)
          case None => None
          case Some(next) => ApplyEntries(parse, next, seen + {name}, entries[1..])
  }

  function ApplyMgmtText(parse: UrlParser, a: Adoption, raw: string): Option<Adoption> {
    if |raw| > MAX_TEXT || |MgmtLines(raw)| > 256 then None
    else ApplyEntries(parse, a, {}, MgmtEntries(MgmtLines(raw)))
  }

  // ---- Settings that are ignored ---------------------------------------------------------------

  const CATEGORIES := ["nut-server", "power-cycle-on-ac-recovery", "buzzer", "outlet-power", "emergency-power-off"]

  const MAX_LINES := 512

  /** The category of ignored settings that a line belongs to. */
  function CategoryOf(line: string): (r: Option<nat>)
    ensures r.Some? ==> r.value < |CATEGORIES|
  {
    match Cut(line)
    case None => None
    case Some((n, _)) =>
      var name := Trim(n, true);
      if "nutserver." <= name then Some(0)
      else if "power_cycle_on_ac_recovery." <= name then Some(1)
      else if name == "beep.status" then Some(2)
      else if name == "outlet.status" then Some(3)
      else if "epo." <= name || "emergency_power_off." <= name then Some(4)
      else None
  }

  /** The lines that are looked at: at most 512, of the first 64 KiB. */
  function Scanned(raw: string): (lines: seq<string>)
    ensures |lines| <= MAX_LINES
  {
    var lines := MgmtLines(if |raw| > MAX_TEXT then raw[..MAX_TEXT] else raw);
    if |lines| > MAX_LINES then lines[..MAX_LINES] else lines
  }

  predicate Mentions(lines: seq<string>, category: nat) {
    exists i :: 0 <= i < |lines| && CategoryOf(lines[i]) == Some(category)
  }

  function Named(lines: seq<string>, from: nat): seq<string>
    requires from <= |CATEGORIES|
    decreases |CATEGORIES| - from
  {
    if from == |CATEGORIES| then []
    else (if Mentions(lines, from) then [CATEGORIES[from]] else []) + Named(lines, from + 1)
  }

  /** The names of the categories that a system configuration mentions, in a fixed order. */
  function Ignored(raw: string): seq<string> {
    Named(Scanned(raw), 0)
  }

  lemma {:induction false} NamedAre(lines: seq<string>, from: nat, c: string)
    requires from <= |CATEGORIES|
    ensures c in Named(lines, from) <==> exists k: nat :: from <= k < |CATEGORIES| && CATEGORIES[k] == c && Mentions(lines, k)
    ensures |Named(lines, from)| <= |CATEGORIES| - from
    decreases |CATEGORIES| - from
  {
    hide Mentions;
    if from < |CATEGORIES| {
      NamedAre(lines, from + 1, c);
    }
  }

  /** Exactly the fixed names of mentioned categories are reported, at most five; no value ever is. */
  lemma IgnoredAre(raw: string, c: string)
    ensures c in Ignored(raw) <==> exists k: nat :: k < |CATEGORIES| && CATEGORIES[k] == c && Mentions(Scanned(raw), k)
    ensures |Ignored(raw)| <= 5
  {
    hide Mentions, Named, Scanned;
    NamedAre(Scanned(raw), 0, c);
  }

  method UnsupportedControllerSettings(raw: string) returns (result: seq<string>)
    ensures result == Ignored(raw)
  {
    hide CategoryOf, MgmtLines, Named;
    var head := if |raw| > MAX_TEXT then raw[..MAX_TEXT] else raw;
    var lines := MgmtLines(head);
    if |lines| > MAX_LINES {
      lines := lines[..MAX_LINES];
    }
    var seen: set<nat> := {};
    for i := 0 to |lines|
      invariant forall k: nat :: k in seen <==> Mentions(lines[..i], k)
    {
      assert lines[..i + 1] == lines[..i] + [lines[i]];
      var category := CategoryOf(lines[i]);
      MentionsNext(lines[..i], lines[i]);
      if category.Some? {
        seen := seen + {category.value};
      }
    }
    assert lines[..|lines|] == lines;
    result := [];
    for k := 0 to |CATEGORIES|
      invariant result + Named(lines, k) == Named(lines, 0)
    {
      NamedNext(lines, k);
      if k in seen {
        result := result + [CATEGORIES[k]];
      }
    }
    NamedNothing(lines);
  }

  lemma MentionsNext(lines: seq<string>, line: string)
    ensures forall k: nat :: Mentions(lines + [line], k) <==> Mentions(lines, k) || CategoryOf(line) == Some(k)
  {
    hide CategoryOf;
    forall k: nat
      ensures Mentions(lines + [line], k) <==> Mentions(lines, k) || CategoryOf(line) == Some(k)
    {
      var all := lines + [line];
      assert forall i :: 0 <= i < |lines| ==> all[i] == lines[i];
      assert all[|lines|] == line;
    }
  }

  lemma NamedNext(lines: seq<string>, from: nat)
    requires from < |CATEGORIES|
    ensures Named(lines, from) == (if Mentions(lines, from) then [CATEGORIES[from]] else []) + Named(lines, from + 1)
  {
    hide Mentions;
  }

  lemma NamedNothing(lines: seq<string>)
    ensures Named(lines, |CATEGORIES|) == []
  {
  }

  // ---- The response transformer ----------------------------------------------------------------

  function Reset(a: Adoption): Adoption {
    Pending(a.informURL)
  }

  function Managed(r: (Adoption, Outcome)): (Adoption, Outcome) {
    if r.0.adopted then r else (r.0.(adopted := true), r.1.(stateChanged := true))
  }

  /** Commands are observed, never carried out. */
  function Command(r: Response): Option<Outcome> {
    if !ValidToken(r.command, 64) then None
    else if r.command != "relayctl" then Some(Plain(IgnoredCommand))
    else match r.relayRows
      case None => None
      case Some(rows) => Some(Plain(RelayControl).(cycleIntents := rows))
  }

  function Dispatch(parse: UrlParser, a: Adoption, r: Response): Option<(Adoption, Outcome)> {
    if r.kind == "noop" then
      if 0 <= r.interval <= 24 * 60 * 60 then Some(Managed((a, Plain(Noop).(interval := r.interval)))) else None
    else if r.kind == "setparam" then
      match ApplyMgmtText(parse, a, r.mgmtCfg)
      case None => None
      case Some(next) =>
        Some(Managed((next, Plain(SetParam).(stateChanged := next != a, urlChanged := next.informURL != a.informURL,
                                             unsupported := Ignored(r.systemCfg)))))
    else if r.kind == "setdefault" then
      var changed := a.adopted || !a.DefaultKey() || a.cfgVersion != "0" || a.useGCM;
      Some((Reset(a), Plain(FactoryReset).(stateChanged := changed)))
    else if r.kind == "reboot" then Some(Managed((a, Plain(Reboot).(restart := true))))
    else if r.kind == "upgrade" then
      if r.version == "" || ValidConfigValue(r.version, 128) then
        Some(Managed((a, Plain(Upgrade).(restart := true, upgradeVersion := r.version))))
      else None
    else if r.kind == "cmd" then
      match Command(r)
      case None => None
      case Some(out) => Some(Managed((a, out)))
    else None
  }

  function Apply(parse: UrlParser, a: Adoption, body: Body): Option<(Adoption, Outcome)> {
    if !a.Valid(parse) || body.size == 0 || body.size > MAX_RESPONSE || body.response.None? then None
    else
      var r := body.response.value;
      if !ValidToken(r.kind, 32) then None
      else match Dispatch(parse, a, r)
        case None => None
        case Some((next, out)) => if next.Valid(parse) then Some((next, out)) else None
  }

  /** What any accepted response can do: it yields a valid state; only setdefault leaves the managed state or
      switches GCM off; only setparam touches key, URL or version; and a URL only changes if reported so. */
  lemma ApplyShape(parse: UrlParser, a: Adoption, body: Body)
    requires Apply(parse, a, body).Some?
    ensures var (next, out) := Apply(parse, a, body).value;
      && a.Valid(parse) && next.Valid(parse)
      && (out.kind == FactoryReset ==> next == Pending(a.informURL))
      && (out.kind != FactoryReset ==> next.adopted && (a.useGCM ==> next.useGCM))
      && (out.kind != FactoryReset && out.kind != SetParam ==> next == a.(adopted := true))
      && out.kind != ReportedFirmware
      && (next != a && out.kind != FactoryReset ==> out.stateChanged)
  {
    hide ValidToken, Adoption.Valid, Adoption.DefaultKey, ApplyEntries, MgmtLines;
    var r := body.response.value;
    if r.kind == "setparam" {
      ApplyEntriesKeeps(parse, a, {}, MgmtEntries(MgmtLines(r.mgmtCfg)));
    }
  }

  /** Management text never clears the managed or GCM flags. */
  lemma {:induction false} ApplyEntriesKeeps(parse: UrlParser, a: Adoption, seen: set<string>, entries: seq<Entry>)
    requires ApplyEntries(parse, a, seen, entries).Some?
    ensures var next := ApplyEntries(parse, a, seen, entries).value; next.adopted == a.adopted && (a.useGCM ==> next.useGCM)
    decreases |entries|
  {
    if entries != [] {
      match entries[0]
      case Blank => ApplyEntriesKeeps(parse, a, seen, entries[1..]);
      case Setting(name, value) =>
        var next := ApplySetting(parse, a, name, value).value;
        ApplyEntriesKeeps(parse, next, seen + {name}, entries[1..]);
    }
  }

  /** The mutable adoption state, changed setting by setting. */
  class AdoptionState {
    var authKey: string
    var informURL: string
    var cfgVersion: string
    var adopted: bool
    var useAESGCM: bool

    function Value(): Adoption
      reads this
    {
      Adoption(authKey, informURL, cfgVersion, adopted, useAESGCM)
    }

    constructor (a: Adoption)
      ensures Value() == a
    {
      authKey, informURL, cfgVersion, adopted, useAESGCM := a.authKey, a.informURL, a.cfgVersion, a.adopted, a.useGCM;
    }

    method Assign(a: Adoption)
      modifies this
      ensures Value() == a
    {
      authKey, informURL, cfgVersion, adopted, useAESGCM := a.authKey, a.informURL, a.cfgVersion, a.adopted, a.useGCM;
    }

    /** Applies the lines in order; after a refused line the fields hold a partial result. */
    method ApplyMgmtCfg(parse: UrlParser, raw: string) returns (ok: bool, changed: bool, urlChanged: bool)
      modifies this
      ensures ok <==> ApplyMgmtText(parse, old(Value()), raw).Some?
      ensures ok ==> Value() == ApplyMgmtText(parse, old(Value()), raw).value
      ensures ok ==> changed == (Value() != old(Value())) && urlChanged == (informURL != old(informURL))
    {
      hide Trim, Cut, ValidToken, ValidConfigValue, ValidInformUrl, ValidKey, ParseConfigBoolean, ToLower, MgmtLines;
      changed, urlChanged := false, false;
      if |raw| > MAX_TEXT {
        return false, false, false;
      }
      var before := Value();
      var seen: set<string> := {};
      var lines := MgmtLines(raw);
      if |lines| > 256 {
        return false, false, false;
      }
      ghost var entries := MgmtEntries(lines);
      for i := 0 to |lines|
        invariant ApplyEntries(parse, Value(), seen, entries[i..]) == ApplyEntries(parse, before, {}, entries)
      {
        assert entries[i..][0] == MgmtEntry(lines[i]) && entries[i..][1..] == entries[i + 1..];
        var line := Trim(lines[i], true);
        if line == "" {
          continue;
        }
        if |line| > 255 {
          return false, false, false;
        }
        var parts := Cut(line);
        if parts.None? {
          return false, false, false;
        }
        var name, value := Trim(parts.value.0, true), Trim(parts.value.1, true);
        if !ValidToken(name, 64) || |value| > 255 || name in seen {
          return false, false, false;
        }
        assert MgmtEntry(lines[i]) == Setting(name, value);
        seen := seen + {name};
        if name == "cfgversion" {
          if !ValidConfigValue(value, 128) {
            return false, false, false;
          }
          cfgVersion := value;
        } else if name == "inform_url" {
          if !ValidInformUrl(parse, value) {
            return false, false, false;
          }
          informURL := value;
        } else if name == "authkey" {
          if !ValidKey(value) {
            return false, false, false;
          }
          authKey := ToLower(value);
        } else if name == "use_aes_gcm" {
          var enabled := ParseConfigBoolean(value);
          if enabled.None? {
            return false, false, false;
          }
          if enabled.value {
            useAESGCM := true;
          }
        }
      }
      return true, Value() != before, informURL != before.informURL;
    }

    method FactoryReset() returns (out: Outcome)
      modifies this
      ensures Value() == Reset(old(Value()))
      ensures out == Plain(ResponseKind.FactoryReset).(stateChanged :=
          old(adopted) || !old(Value()).DefaultKey() || old(cfgVersion) != "0" || old(useAESGCM))
    {
      var changed := adopted || !EqualFold(authKey, DEFAULT_KEY) || cfgVersion != "0" || useAESGCM;
      authKey := DEFAULT_KEY;
      cfgVersion := "0";
      adopted := false;
      useAESGCM := false;
      out := Plain(ResponseKind.FactoryReset).(stateChanged := changed);
    }

    method ApplyCommand(response: Response) returns (out: Option<Outcome>)
      ensures out == Command(response)
    {
      if !ValidToken(response.command, 64) {
        return None;
      }
      if response.command != "relayctl" {
        return Some(Plain(IgnoredCommand));
      }
      if response.relayRows.None? {
        return None;
      }
      return Some(Plain(RelayControl).(cycleIntents := response.relayRows.value));
    }

    /** All or nothing: on refusal no field has changed, otherwise the fields hold the specified result. */
    method ApplyControllerResponse(parse: UrlParser, body: Body) returns (r: Option<Outcome>)
      modifies this
      ensures match Apply(parse, old(Value()), body)
        case None => r == None && Value() == old(Value())
        case Some((next, out)) => r == Some(out) && Value() == next
    {
      hide ApplyMgmtText, ValidToken, Command, Ignored, ValidConfigValue, Adoption.Valid, Adoption.DefaultKey;
      hide EqualFold;
      if !Value().Valid(parse) || body.size == 0 || body.size > MAX_RESPONSE || body.response.None? {
        return None;
      }
      var response := body.response.value;
      if !ValidToken(response.kind, 32) {
        return None;
      }
      var next := new AdoptionState(Value());
      var out := Plain(Noop);
      var markManaged := true;
      if response.kind == "noop" {
        if response.interval < 0 || response.interval > 24 * 60 * 60 {
          return None;
        }
        out := out.(interval := response.interval);
      } else if response.kind == "setparam" {
        var ok, changed, urlChanged := next.ApplyMgmtCfg(parse, response.mgmtCfg);
        if !ok {
          return None;
        }
        var ignored := UnsupportedControllerSettings(response.systemCfg);
        out := Plain(SetParam).(stateChanged := changed, urlChanged := urlChanged, unsupported := ignored);
      } else if response.kind == "setdefault" {
        out := next.FactoryReset();
        markManaged := false;
      } else if response.kind == "reboot" {
        out := Plain(Reboot).(restart := true);
      } else if response.kind == "upgrade" {
        out := Plain(Upgrade).(restart := true);
        if response.version != "" {
          if !ValidConfigValue(response.version, 128) {
            return None;
          }
          out := out.(upgradeVersion := response.version);
        }
      } else if response.kind == "cmd" {
        var applied := ApplyCommand(response);
        if applied.None? {
          return None;
        }
        out := applied.value;
      } else {
        return None;
      }
      assert Dispatch(parse, old(Value()), response) ==
             Some(if markManaged then Managed((next.Value(), out)) else (next.Value(), out));
      if markManaged && !next.adopted {
        next.adopted := true;
        out := out.(stateChanged := true);
      }
      if !next.Value().Valid(parse) {
        return None;
      }
      Assign(next.Value());
      return Some(out);
    }
  }
}
