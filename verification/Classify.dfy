/** The two strict classifiers that recognise a report-only answer, the report-only cfgversion test, and how
    each of them relates to the general response transformer. */
module Classify {
  import opened Basics
  import opened Text
  import opened Hex
  import opened Adoption

  datatype ConfigReceipt = ConfigReceipt(cfgVersion: string, unsupported: seq<string>)

  const RECEIPT_FIELDS := {"_type", "mgmt_cfg", "system_cfg", "cfgversion", "server_time_in_utc", "blocked_sta"}
  const INERT_SETTINGS := {"capability", "led_enabled", "mgmt_url", "report_crash", "selfrun_guest_mode", "stun_url"}
  const TARGET_FIELDS := {"_type", "version", "url", "server_time_in_utc", "md5sum", "sha256sum"}

  function Field(fields: map<string, string>, name: string): string {
    if name in fields then fields[name] else ""
  }

  /** strings.ReplaceAll(s, "\r\n", "\n"). */
  function ReplaceCRLF(s: string): string {
    if |s| >= 2 && s[0] == '\r' && s[1] == '\n' then "\n" + ReplaceCRLF(s[2..])
    else if s == "" then ""
    else [s[0]] + ReplaceCRLF(s[1..])
  }

  predicate ReceiptChar(c: char) {
    ' ' <= c <= '~' || c == '\n' || c == '\r' || c == '\t'
  }

  /** A receipt line; unlike the transformer it measures the untrimmed line and strips only spaces and tabs. */
  function ReceiptEntry(raw: string): Entry {
    var line := Trim(raw, false);
    if |raw| > 255 then Bad
    else if line == "" then Blank
    else match Cut(line)
      case None => Bad
      case Some((n, v)) =>
        var name, value := Trim(n, false), Trim(v, false);
        if ValidToken(name, 64) && '\r' !in value && '\t' !in value then Setting(name, value) else Bad
  }

  function ReceiptLines(text: string): seq<string> {
    Split(ReplaceCRLF(text), '\n')
  }

  function ReceiptEntries(lines: seq<string>): (entries: seq<Entry>)
    ensures |entries| == |lines|
  {
    seq(|lines|, i requires 0 <= i < |lines| => ReceiptEntry(lines[i]))
  }

  /** The version after the given entries, or None when one of them disqualifies the answer. */
  function ClassifyEntries(seen: set<string>, version: string, entries: seq<Entry>): Option<string>
    decreases |entries|
  {
    if entries == [] then Some(version)
    else match entries[0]
      case Blank => ClassifyEntries(seen, version, entries[1..])
      case Bad => None
      case Setting(name, value) =>
        if name in seen then None
        else if name == "cfgversion" then
          if ValidConfigValue(value, 128) then ClassifyEntries(seen + {name}, value, entries[1..]) else None
        else if name == "use_aes_gcm" then
          if value == "true" then ClassifyEntries(seen + {name}, version, entries[1..]) else None
        else if name in INERT_SETTINGS then ClassifyEntries(seen + {name}, version, entries[1..])
        else None
  }

  function ClassifyText(text: string): Option<string> {
    if 0 < |text| <= MAX_TEXT && (forall i :: 0 <= i < |text| ==> ReceiptChar(text[i])) && |ReceiptLines(text)| <= 256 then
      match ClassifyEntries({}, "", ReceiptEntries(ReceiptLines(text)))
      case None => None
      case Some(version) => if version == "" then None else Some(version)
    else None
  }

  predicate Digits(s: string) {
    forall i :: 0 <= i < |s| ==> '0' <= s[i] <= '9'
  }

  predicate TimeStamp(fields: map<string, string>) {
    "server_time_in_utc" in fields ==> |fields["server_time_in_utc"]| == 13 && Digits(fields["server_time_in_utc"])
  }

  function ClassifyReceipt(body: Body): Option<ConfigReceipt> {
    if body.size == 0 || body.size > MAX_RESPONSE || !body.utf8 || body.exact.None? then None
    else
      var fields := body.exact.value;
      if fields.Keys <= RECEIPT_FIELDS && Field(fields, "_type") == "setparam" && |Field(fields, "system_cfg")| <= MAX_TEXT then
        match ClassifyText(Field(fields, "mgmt_cfg"))
        case None => None
        case Some(version) =>
          if ("cfgversion" in fields ==> fields["cfgversion"] == version) && Field(fields, "blocked_sta") == "" && TimeStamp(fields)
          then Some(ConfigReceipt(version, Ignored(Field(fields, "system_cfg"))))
          else None
      else None
  }

  function DecimalValue(s: string): nat
    requires Digits(s)
  {
    if s == "" then 0 else DecimalValue(s[..|s| - 1]) * 10 + (s[|s| - 1] as int - '0' as int)
  }

  predicate VersionPart(p: string) {
    0 < |p| <= 10 && Digits(p) && (|p| > 1 ==> p[0] != '0') && DecimalValue(p) < 0x1_0000_0000
  }

  predicate ValidVersion(v: string) {
    |v| <= 43 && var parts := Split(v, '.');
    (|parts| == 3 || |parts| == 4) && forall i :: 0 <= i < |parts| ==> VersionPart(parts[i])
  }

  /** The target version of an upgrade answer that carries nothing but inert companion fields. */
  function ClassifyTarget(body: Body): (r: Option<string>)
    ensures r.Some? ==> ValidVersion(r.value)
  {
    if body.size == 0 || body.size > 0x4000 || !body.utf8 || body.exact.None? then None
    else
      var fields := body.exact.value;
      if fields.Keys <= TARGET_FIELDS && Field(fields, "_type") == "upgrade" && ValidVersion(Field(fields, "version")) &&
         ("url" in fields ==> 0 < |fields["url"]| <= 2048 && forall i :: 0 <= i < |fields["url"]| ==> ' ' <= fields["url"][i] <= '~') &&
         ("md5sum" in fields ==> |fields["md5sum"]| == 32 && IsHex(fields["md5sum"])) &&
         ("sha256sum" in fields ==> |fields["sha256sum"]| == 64 && IsHex(fields["sha256sum"])) && TimeStamp(fields)
      then Some(fields["version"]) else None
  }

  /** What the report-only cfgversion exception demands of a line: blank, or a cfgversion setting. */
  predicate OnlyCfgVersionLine(raw: string) {
    var line := Trim(raw, true);
    line != "" ==> Cut(line).Some? && Trim(Cut(line).value.0, true) == "cfgversion"
  }

  function NonBlankCount(lines: seq<string>): nat {
    if lines == [] then 0
    else NonBlankCount(lines[..|lines| - 1]) + if Trim(lines[|lines| - 1], true) == "" then 0 else 1
  }

  ghost predicate HasOnlyCfgVersion(r: Option<Response>) {
    r.Some? && r.value.kind == "setparam" && var lines := MgmtLines(r.value.mgmtCfg);
    (forall i :: 0 <= i < |lines| ==> OnlyCfgVersionLine(lines[i])) && NonBlankCount(lines) == 1
  }

  // ---- The loops of the source, proved against the specifications above -------------------------

  method ClassifyManagement(text: string) returns (r: Option<string>)
    ensures r == ClassifyText(text)
  {
    if |text| == 0 || |text| > MAX_TEXT {
      return None;
    }
    for i := 0 to |text|
      invariant forall j :: 0 <= j < i ==> ReceiptChar(text[j])
    {
      if !ReceiptChar(text[i]) {
        return None;
      }
    }
    var lines := ReceiptLines(text);
    if |lines| > 256 {
      return None;
    }
    ghost var entries := ReceiptEntries(lines);
    var seen: set<string> := {};
    var version := "";
    for i := 0 to |lines|
      invariant ClassifyEntries(seen, version, entries[i..]) == ClassifyEntries({}, "", entries)
    {
      assert entries[i..][0] == ReceiptEntry(lines[i]) && entries[i..][1..] == entries[i + 1..];
      if |lines[i]| > 255 {
        return None;
      }
      var line := Trim(lines[i], false);
      if line == "" {
        continue;
      }
      var parts := Cut(line);
      if parts.None? {
        return None;
      }
      var name, value := Trim(parts.value.0, false), Trim(parts.value.1, false);
      if !ValidToken(name, 64) || name in seen || '\r' in value || '\t' in value {
        return None;
      }
      assert ReceiptEntry(lines[i]) == Setting(name, value);
      seen := seen + {name};
      if name == "cfgversion" {
        if !ValidConfigValue(value, 128) {
          return None;
        }
        version := value;
      } else if name == "use_aes_gcm" {
        if value != "true" {
          return None;
        }
      } else if name !in INERT_SETTINGS {
        return None;
      }
    }
    return if version == "" then None else Some(version);
  }

  method ClassifyConfigReceipt(body: Body) returns (r: Option<ConfigReceipt>)
    ensures r == ClassifyReceipt(body)
  {
    if body.size == 0 || body.size > MAX_RESPONSE || !body.utf8 || body.exact.None? {
      return None;
    }
    var fields := body.exact.value;
    if !(fields.Keys <= RECEIPT_FIELDS) || Field(fields, "_type") != "setparam" || |Field(fields, "system_cfg")| > MAX_TEXT {
      return None;
    }
    var version := ClassifyManagement(Field(fields, "mgmt_cfg"));
    if version.None? {
      return None;
    }
    if "cfgversion" in fields && fields["cfgversion"] != version.value {
      return None;
    }
    if Field(fields, "blocked_sta") != "" || !TimeStamp(fields) {
      return None;
    }
    var ignored := UnsupportedControllerSettings(Field(fields, "system_cfg"));
    return Some(ConfigReceipt(version.value, ignored));
  }

  method SetParamHasOnlyCfgVersion(response: Option<Response>) returns (only: bool)
    ensures only <==> HasOnlyCfgVersion(response)
  {
    hide Trim, Cut, MgmtLines;
    if response.None? || response.value.kind != "setparam" {
      return false;
    }
    var lines := MgmtLines(response.value.mgmtCfg);
    var entryCount := 0;
    for i := 0 to |lines|
      invariant forall j :: 0 <= j < i ==> OnlyCfgVersionLine(lines[j])
      invariant entryCount == NonBlankCount(lines[..i])
    {
      assert lines[..i + 1][..i] == lines[..i];
      var line := Trim(lines[i], true);
      if line == "" {
        continue;
      }
      entryCount := entryCount + 1;
      var parts := Cut(line);
      if parts.None? || Trim(parts.value.0, true) != "cfgversion" {
        assert !OnlyCfgVersionLine(lines[i]);
        return false;
      }
    }
    assert lines[..|lines|] == lines;
    return entryCount == 1;
  }

  // ---- Receipts against the transformer ----------------------------------------------------------

  /** Number of carriage returns and line feeds, which is how the transformer counts lines. */
  function Newlines(s: string): nat {
    if s == "" then 0 else Newlines(s[1..]) + if s[0] == '\r' || s[0] == '\n' then 1 else 0
  }

  /** Everything the receipt classifier accepts, the transformer accepts too, and its whole effect on a GCM state
      is to set the version the classifier returned - except that the transformer counts the two halves of a CRLF
      as two line ends, so it refuses the text exactly when it has 256 or more of them. */
  lemma ClassifiedTextApplies(parse: UrlParser, a: Adoption, text: string)
    requires ClassifyText(text).Some? && a.useGCM
    ensures ApplyMgmtText(parse, a, text) ==
            if Newlines(text) < 256 then Some(a.(cfgVersion := ClassifyText(text).value)) else None
  {
    var entries := ReceiptEntries(ReceiptLines(text));
    LineCount(text);
    NoBadEntry({}, "", entries);
    CleanLines(text);
    SameEntries(text);
    ClassifiedEntriesApply(parse, a, {}, "", entries);
    SameNonBlank(text);
    SkipBlank(parse, a, {}, MgmtEntries(MgmtLines(text)));
    SkipBlank(parse, a, {}, entries);
  }

  lemma SameEntries(text: string)
    requires forall line, c :: line in ReceiptLines(text) && c in line ==> ' ' <= c <= '~' || c == '\t'
    requires Bad !in ReceiptEntries(ReceiptLines(text))
    ensures MgmtEntries(ReceiptLines(text)) == ReceiptEntries(ReceiptLines(text))
  {
    var lines, entries := ReceiptLines(text), ReceiptEntries(ReceiptLines(text));
    forall i | 0 <= i < |lines|
      ensures MgmtEntry(lines[i]) == entries[i]
    {
      assert lines[i] in lines;
      assert entries[i] == ReceiptEntry(lines[i]) && entries[i] in entries;
      EntriesAgree(lines[i]);
    }
  }

  /** The same at the level of a whole answer, when both decoders read the same fields. */
  ghost predicate Coherent(body: Body) {
    body.exact.Some? && body.exact.value.Keys <= RECEIPT_FIELDS ==>
      var f := body.exact.value;
      && body.response.Some? && body.response.value.kind == Field(f, "_type")
      && body.response.value.mgmtCfg == Field(f, "mgmt_cfg") && body.response.value.systemCfg == Field(f, "system_cfg")
  }

  lemma ClassifiedAnswerApplies(parse: UrlParser, a: Adoption, body: Body)
    requires ClassifyReceipt(body).Some? && Coherent(body)
    requires a.Valid(parse) && a.useGCM
    ensures var receipt, r := ClassifyReceipt(body).value, body.response.value;
      && (Newlines(r.mgmtCfg) >= 256 ==> Apply(parse, a, body) == None)
      && (Newlines(r.mgmtCfg) < 256 ==>
            (&& Apply(parse, a, body).Some? && Apply(parse, a, body).value.0 == a.(cfgVersion := receipt.cfgVersion)
             && Apply(parse, a, body).value.1.unsupported == receipt.unsupported))
  {
    hide Ignored;
    var r := body.response.value;
    ClassifiedTextApplies(parse, a, r.mgmtCfg);
    ClassifiedVersionPrintable(r.mgmtCfg);
    SetParamIsToken(r.kind);
  }

  lemma SetParamIsToken(kind: string)
    requires kind == "setparam"
    ensures ValidToken(kind, 32)
  {
  }

  /** A version accepted from a receipt is non-empty printable ASCII of at most 128 characters. */
  lemma ClassifiedVersionPrintable(text: string)
    requires ClassifyText(text).Some?
    ensures var v := ClassifyText(text).value;
      ValidConfigValue(v, 128) && forall i :: 0 <= i < |v| ==> ' ' <= v[i] <= '~'
  {
    var lines, entries := ReceiptLines(text), ReceiptEntries(ReceiptLines(text));
    NoBadEntry({}, "", entries);
    CleanLines(text);
    forall i | 0 <= i < |entries|
      ensures entries[i].Setting? ==> PrintableValue(entries[i].value)
    {
      assert lines[i] in lines;
      PrintableEntry(lines[i]);
    }
    ClassifiedVersionFrom({}, "", entries);
  }

  predicate PrintableValue(v: string) {
    forall i :: 0 <= i < |v| ==> ' ' <= v[i] <= '~'
  }

  lemma PrintableEntry(raw: string)
    requires forall c :: c in raw ==> ' ' <= c <= '~' || c == '\t'
    ensures ReceiptEntry(raw).Setting? ==> PrintableValue(ReceiptEntry(raw).value)
  {
    if ReceiptEntry(raw).Setting? {
      TrimIsCore(raw, false);
      var line := Trim(raw, false);
      var (n, v) := Cut(line).value;
      TrimIsCore(v, false);
      var value := Trim(v, false);
      forall i | 0 <= i < |value|
        ensures ' ' <= value[i] <= '~'
      {
        assert value[i] in v && value[i] in line && value[i] in raw;
      }
    }
  }

  lemma {:induction false} ClassifiedVersionFrom(seen: set<string>, version: string, entries: seq<Entry>)
    requires ClassifyEntries(seen, version, entries).Some?
    requires version != "" ==> ValidConfigValue(version, 128) && PrintableValue(version)
    requires forall i :: 0 <= i < |entries| ==> entries[i].Setting? ==> PrintableValue(entries[i].value)
    ensures var v := ClassifyEntries(seen, version, entries).value; v != "" ==> ValidConfigValue(v, 128) && PrintableValue(v)
    decreases |entries|
  {
    if entries != [] {
      match entries[0]
      case Blank => ClassifiedVersionFrom(seen, version, entries[1..]);
      case Setting(name, value) =>
        ClassifiedVersionFrom(seen + {name}, if name == "cfgversion" then value else version, entries[1..]);
    }
  }

  lemma {:induction false} ClassifiedEntriesApply(parse: UrlParser, a: Adoption, seen: set<string>, version: string,
                                                  entries: seq<Entry>)
    requires ClassifyEntries(seen, version, entries).Some?
    requires a.useGCM && (version != "" ==> a.cfgVersion == version)
    ensures var v := ClassifyEntries(seen, version, entries).value;
      ApplyEntries(parse, a, seen, entries) == Some(if v == "" then a else a.(cfgVersion := v))
    decreases |entries|
  {
    if entries != [] {
      match entries[0]
      case Blank => ClassifiedEntriesApply(parse, a, seen, version, entries[1..]);
      case Setting(name, value) =>
        if name == "cfgversion" {
          var next := a.(cfgVersion := value);
          ClassifiedEntriesApply(parse, next, seen + {name}, value, entries[1..]);
          ClassifiedStaysSet(seen + {name}, value, entries[1..]);
        } else {
          TrueIsTrue();
          ClassifiedEntriesApply(parse, a, seen + {name}, version, entries[1..]);
        }
    }
  }

  lemma TrueIsTrue()
    ensures ParseConfigBoolean("true") == Some(true)
  {
    LowerWordOfAscii("true");
    assert ToLower("true") == "true";
  }

  lemma {:induction false} ClassifiedStaysSet(seen: set<string>, version: string, entries: seq<Entry>)
    requires ClassifyEntries(seen, version, entries).Some? && version != ""
    ensures ClassifyEntries(seen, version, entries).value != ""
    decreases |entries|
  {
    if entries != [] {
      match entries[0]
      case Blank => ClassifiedStaysSet(seen, version, entries[1..]);
      case Setting(name, value) =>
        ClassifiedStaysSet(seen + {name}, if name == "cfgversion" then value else version, entries[1..]);
    }
  }

  lemma {:induction false} NoBadEntry(seen: set<string>, version: string, entries: seq<Entry>)
    requires ClassifyEntries(seen, version, entries).Some?
    ensures Bad !in entries
    decreases |entries|
  {
    if entries != [] {
      match entries[0]
      case Blank => NoBadEntry(seen, version, entries[1..]);
      case Setting(name, value) =>
        NoBadEntry(seen + {name}, if name == "cfgversion" then value else version, entries[1..]);
    }
  }

  function NonBlank(entries: seq<Entry>): seq<Entry> {
    if entries == [] then []
    else (if entries[0] == Blank then [] else [entries[0]]) + NonBlank(entries[1..])
  }

  lemma {:induction false} SkipBlank(parse: UrlParser, a: Adoption, seen: set<string>, entries: seq<Entry>)
    ensures ApplyEntries(parse, a, seen, entries) == ApplyEntries(parse, a, seen, NonBlank(entries))
    decreases |entries|
  {
    if entries != [] {
      match entries[0]
      case Blank =>
        assert NonBlank(entries) == NonBlank(entries[1..]);
        SkipBlank(parse, a, seen, entries[1..]);
      case Bad =>
      case Setting(name, value) =>
        assert NonBlank(entries)[1..] == NonBlank(entries[1..]);
        if name !in seen && ApplySetting(parse, a, name, value).Some? {
          SkipBlank(parse, ApplySetting(parse, a, name, value).value, seen + {name}, entries[1..]);
        }
    }
  }

  /** On printable text both parsers read a line alike unless the classifier refuses it. */
  lemma EntriesAgree(raw: string)
    requires forall c :: c in raw ==> ' ' <= c <= '~' || c == '\t'
    requires ReceiptEntry(raw) != Bad
    ensures MgmtEntry(raw) == ReceiptEntry(raw)
  {
    hide Trim, SimpleBlanks;
    PrintableTrims(raw);
    var line := Trim(raw, true);
    if line != "" {
      var (n, v) := Cut(line).value;
      assert forall c :: c in n ==> c in line;
      assert forall c :: c in v ==> c in line;
      PrintableTrims(n);
      PrintableTrims(v);
    }
  }

  /** Printable text is trimmed alike in both ways, and stays printable. */
  lemma PrintableTrims(s: string)
    requires forall c :: c in s ==> ' ' <= c <= '~' || c == '\t'
    ensures Trim(s, true) == Trim(s, false)
    ensures forall c :: c in Trim(s, true) ==> ' ' <= c <= '~' || c == '\t'
  {
    hide Trim;
    forall i | 0 <= i < |s|
      ensures ' ' <= s[i] <= '~' || s[i] == '\t'
    {
      assert s[i] in s;
    }
    TrimAgrees(s);
    TrimIsCore(s, true);
  }

  /** A line that keeps a carriage return is refused by the classifier. */
  lemma ReturnIsBad(raw: string)
    requires '\r' in raw
    ensures ReceiptEntry(raw) == Bad
  {
    TrimKeeps(raw, '\r');
    var line := Trim(raw, false);
    if Cut(line).Some? {
      var (n, v) := Cut(line).value;
      if '\r' in n {
        TrimKeeps(n, '\r');
      } else {
        assert '\r' in v;
        TrimKeeps(v, '\r');
      }
    }
  }

  lemma ReturnRefuses(lines: seq<string>, i: nat)
    requires i < |lines| && '\r' in lines[i]
    ensures Bad in ReceiptEntries(lines)
  {
    ReturnIsBad(lines[i]);
    assert ReceiptEntries(lines)[i] == Bad;
  }

  lemma {:induction false} SplitChars(s: string, sep: char)
    ensures forall line, c :: line in Split(s, sep) && c in line ==> c in s && c != sep
    ensures forall c :: c in s && c != sep ==> exists i :: 0 <= i < |Split(s, sep)| && c in Split(s, sep)[i]
  {
    if s != "" {
      var rest := Split(s[1..], sep);
      SplitChars(s[1..], sep);
      var parts := Split(s, sep);
      if s[0] == sep {
        assert parts[1..] == rest;
      } else {
        assert parts[1..] == rest[1..] && parts[0] == [s[0]] + rest[0];
      }
      forall c | c in s && c != sep
        ensures exists i :: 0 <= i < |parts| && c in parts[i]
      {
        if c in s[1..] {
          var i :| 0 <= i < |rest| && c in rest[i];
          assert c in parts[if s[0] == sep then i + 1 else i];
        } else {
          assert c in parts[0];
        }
      }
    }
  }

  lemma {:induction false} CRLFChars(s: string)
    ensures forall c :: c in ReplaceCRLF(s) ==> c in s
  {
    if |s| >= 2 && s[0] == '\r' && s[1] == '\n' {
      CRLFChars(s[2..]);
    } else if s != "" {
      CRLFChars(s[1..]);
    }
  }

  /** No carriage return survives in an accepted text, and every line is printable. */
  lemma CleanLines(text: string)
    requires forall i :: 0 <= i < |text| ==> ReceiptChar(text[i])
    requires Bad !in ReceiptEntries(ReceiptLines(text))
    ensures '\r' !in ReplaceCRLF(text)
    ensures forall line, c :: line in ReceiptLines(text) && c in line ==> ' ' <= c <= '~' || c == '\t'
  {
    var lines := ReceiptLines(text);
    CRLFChars(text);
    SplitChars(ReplaceCRLF(text), '\n');
    if '\r' in ReplaceCRLF(text) {
      var i :| 0 <= i < |lines| && '\r' in lines[i];
      ReturnRefuses(lines, i);
    }
    forall line, c | line in lines && c in line
      ensures ' ' <= c <= '~' || c == '\t'
    {
      assert c in text && c != '\n' && c != '\r';
    }
  }

  lemma {:induction false} LineCount(text: string)
    ensures |MgmtLines(text)| == 1 + Newlines(text)
  {
    if text != "" {
      LineCount(text[1..]);
      assert NewlineFor(text)[1..] == NewlineFor(text[1..]);
    }
  }

  lemma HeadTail(lines: seq<string>)
    requires lines != []
    ensures MgmtEntries(lines) == [MgmtEntry(lines[0])] + MgmtEntries(lines[1..])
    ensures NonBlank(MgmtEntries(lines)) ==
            (if MgmtEntry(lines[0]) == Blank then [] else [MgmtEntry(lines[0])]) + NonBlank(MgmtEntries(lines[1..]))
  {
    assert MgmtEntries(lines)[1..] == MgmtEntries(lines[1..]);
  }

  lemma EmptyIsBlank()
    ensures MgmtEntry("") == Blank
  {
  }

  lemma {:induction false} SameTail(text: string)
    requires '\r' !in ReplaceCRLF(text)
    ensures MgmtLines(text)[0] == ReceiptLines(text)[0]
    ensures NonBlank(MgmtEntries(MgmtLines(text)[1..])) == NonBlank(MgmtEntries(ReceiptLines(text)[1..]))
    decreases |text|, 0
  {
    hide MgmtEntry;
    if |text| >= 2 && text[0] == '\r' && text[1] == '\n' {
      var rest := text[2..];
      assert ReplaceCRLF(text) == "\n" + ReplaceCRLF(rest);
      assert ReplaceCRLF(text)[1..] == ReplaceCRLF(rest);
      SameNonBlank(rest);
      assert NewlineFor(text)[1..][1..] == NewlineFor(rest);
      assert MgmtLines(text) == [""] + Split(NewlineFor(text)[1..], '\n') == [""] + ([""] + MgmtLines(rest));
      assert MgmtLines(text)[1..] == [""] + MgmtLines(rest);
      assert ReceiptLines(text)[1..] == ReceiptLines(rest);
      HeadTail([""] + MgmtLines(rest));
      assert ([""] + MgmtLines(rest))[1..] == MgmtLines(rest);
      EmptyIsBlank();
    } else if text != "" {
      var rest := text[1..];
      assert ReplaceCRLF(text) == [text[0]] + ReplaceCRLF(rest);
      assert ReplaceCRLF(text)[0] == text[0] && ReplaceCRLF(text)[1..] == ReplaceCRLF(rest);
      assert text[0] in ReplaceCRLF(text) && forall c :: c in ReplaceCRLF(rest) ==> c in ReplaceCRLF(text);
      assert NewlineFor(text)[1..] == NewlineFor(rest);
      SameTail(rest);
      if text[0] == '\n' {
        SameNonBlank(rest);
        assert MgmtLines(text)[1..] == MgmtLines(rest);
        assert ReceiptLines(text)[1..] == ReceiptLines(rest);
      } else {
        assert MgmtLines(text)[1..] == MgmtLines(rest)[1..];
        assert ReceiptLines(text)[1..] == ReceiptLines(rest)[1..];
      }
    }
  }

  /** Doubling line ends only adds blank entries. */
  lemma SameNonBlank(text: string)
    requires '\r' !in ReplaceCRLF(text)
    ensures NonBlank(MgmtEntries(MgmtLines(text))) == NonBlank(MgmtEntries(ReceiptLines(text)))
    decreases |text|, 1
  {
    SameTail(text);
    HeadTail(MgmtLines(text));
    HeadTail(ReceiptLines(text));
  }

  function LineEnds(n: nat, end: string): string {
    if n == 0 then "" else end + LineEnds(n - 1, end)
  }

  function Empties(n: nat): seq<string> {
    if n == 0 then [] else [""] + Empties(n - 1)
  }

  /** A version setting followed by 128 to 255 CRLF line ends is a receipt that the transformer refuses. */
  lemma CRLFTextIsRefused(parse: UrlParser, a: Adoption, version: string, n: nat)
    requires a.useGCM && 0 < |version| <= 128 && PrintableValue(version)
    requires version[0] != ' ' && version[|version| - 1] != ' '
    requires 128 <= n <= 255
    ensures var text := VersionLine(version) + LineEnds(n, "\r\n");
      ClassifyText(text) == Some(version) && ApplyMgmtText(parse, a, text) == None
  {
    var text := VersionLine(version) + LineEnds(n, "\r\n");
    LineThenEnds(VersionLine(version), n);
    EmptiesLength(n);
    VersionEntries(version, n);
    ClassifiedTextApplies(parse, a, text);
  }

  lemma VersionEntries(version: string, n: nat)
    requires 0 < |version| <= 128 && PrintableValue(version)
    requires version[0] != ' ' && version[|version| - 1] != ' '
    ensures ClassifyEntries({}, "", ReceiptEntries([VersionLine(version)] + Empties(n))) == Some(version)
  {
    hide ReceiptEntry, ReceiptEntries, ClassifyEntries, Empties;
    var entries := ReceiptEntries([VersionLine(version)] + Empties(n));
    EntriesOfLines(VersionLine(version), n);
    SettingLine("cfgversion", version);
    FirstSetting(version, entries);
    BlanksKeep({"cfgversion"}, version, n);
  }

  lemma FirstSetting(version: string, entries: seq<Entry>)
    requires entries != [] && entries[0] == Setting("cfgversion", version) && ValidConfigValue(version, 128)
    ensures ClassifyEntries({}, "", entries) == ClassifyEntries({"cfgversion"}, version, entries[1..])
  {
    assert {} + {"cfgversion"} == {"cfgversion"};
  }

  function VersionLine(version: string): (line: string)
    ensures |line| == 11 + |version|
    ensures PrintableValue(version) ==> PrintableValue(line)
  {
    "cfgversion" + "=" + version
  }

  lemma EntriesOfLines(line: string, n: nat)
    ensures ReceiptEntries([line] + Empties(n))[0] == ReceiptEntry(line)
    ensures ReceiptEntries([line] + Empties(n))[1..] == ReceiptEntries(Empties(n))
  {
    assert ([line] + Empties(n))[1..] == Empties(n);
  }

  lemma EmptiesLength(n: nat)
    ensures |Empties(n)| == n
  {
  }

  lemma SettingLine(name: string, value: string)
    requires ValidToken(name, 64) && value != "" && |name| + 1 + |value| <= 255 && PrintableValue(value)
    requires value[0] != ' ' && value[|value| - 1] != ' '
    ensures ReceiptEntry(name + "=" + value) == Setting(name, value)
  {
    var line := name + "=" + value;
    CutAt(name, value);
    TrimNothing(line);
    TrimNothing(name);
    TrimNothing(value);
  }

  lemma TrimNothing(s: string)
    requires s != "" && !IsBlank(s[0], false) && !IsBlank(s[|s| - 1], false)
    ensures Trim(s, false) == s
  {
  }

  lemma {:induction false} CutAt(name: string, value: string)
    requires '=' !in name
    ensures Cut(name + "=" + value) == Some((name, value))
  {
    var s := name + "=" + value;
    if name == "" {
      assert s[1..] == value;
    } else {
      assert s[0] == name[0] && s[0] in name;
      assert s[1..] == name[1..] + "=" + value;
      CutAt(name[1..], value);
      assert [name[0]] + name[1..] == name;
    }
  }

  lemma {:induction false} BlanksKeep(seen: set<string>, version: string, n: nat)
    ensures |ReceiptEntries(Empties(n))| == n
    ensures ClassifyEntries(seen, version, ReceiptEntries(Empties(n))) == Some(version)
  {
    if n > 0 {
      BlanksKeep(seen, version, n - 1);
      assert Empties(n)[1..] == Empties(n - 1);
      assert ReceiptEntries(Empties(n))[1..] == ReceiptEntries(Empties(n - 1));
      assert ReceiptEntry("") == Blank;
    }
  }

  /** A printable line in front of some line ends. */
  lemma {:induction false} LineThenEnds(line: string, n: nat)
    requires PrintableValue(line)
    ensures var text := line + LineEnds(n, "\r\n");
      && ReceiptLines(text) == [line] + Empties(n)
      && Newlines(text) == 2 * n && |text| == |line| + 2 * n
      && forall i :: 0 <= i < |text| ==> ReceiptChar(text[i])
    decreases |line|
  {
    if line == "" {
      OnlyEnds(n);
      assert "" + LineEnds(n, "\r\n") == LineEnds(n, "\r\n");
    } else {
      LineThenEnds(line[1..], n);
      OneMore(line[0], line[1..] + LineEnds(n, "\r\n"), line[1..], Empties(n));
      assert line + LineEnds(n, "\r\n") == [line[0]] + (line[1..] + LineEnds(n, "\r\n"));
      assert [line[0]] + line[1..] == line;
    }
  }

  /** One printable character in front of a text joins its first line. */
  lemma OneMore(c: char, rest: string, line: string, others: seq<string>)
    requires ' ' <= c <= '~' && ReceiptLines(rest) == [line] + others
    ensures ReceiptLines([c] + rest) == [[c] + line] + others && Newlines([c] + rest) == Newlines(rest)
  {
    var text := [c] + rest;
    assert text[1..] == rest;
    assert ReplaceCRLF(text) == [c] + ReplaceCRLF(rest);
    assert ReplaceCRLF(text)[1..] == ReplaceCRLF(rest);
    assert ([line] + others)[1..] == others;
  }

  lemma {:induction false} OnlyEnds(n: nat)
    ensures var text := LineEnds(n, "\r\n");
      && ReceiptLines(text) == [""] + Empties(n) && Newlines(text) == 2 * n && |text| == 2 * n
      && forall i :: 0 <= i < |text| ==> ReceiptChar(text[i])
  {
    hide ReceiptLines, Newlines;
    if n > 0 {
      OnlyEnds(n - 1);
      OneMoreEnd(LineEnds(n - 1, "\r\n"));
    } else {
      assert ReceiptLines("") == [""] && Newlines("") == 0 by {
        NoText();
      }
    }
  }

  lemma NoText()
    ensures ReceiptLines("") == [""] && Newlines("") == 0
  {
  }

  /** One more line end in front of a text is one more empty line. */
  lemma OneMoreEnd(rest: string)
    ensures var text := "\r\n" + rest; ReceiptLines(text) == [""] + ReceiptLines(rest) && Newlines(text) == 2 + Newlines(rest)
  {
    var text := "\r\n" + rest;
    assert text[2..] == rest && text[1..][1..] == rest;
    assert ReplaceCRLF(text) == "\n" + ReplaceCRLF(rest) && ReplaceCRLF(text)[1..] == ReplaceCRLF(rest);
  }

  // ---- The report-only exception against the transformer ------------------------------------------

  /** A text that passes the report-only test can change nothing but the version. */
  lemma OnlyCfgVersionChangesOnlyThat(parse: UrlParser, a: Adoption, r: Response)
    requires HasOnlyCfgVersion(Some(r)) && ApplyMgmtText(parse, a, r.mgmtCfg).Some?
    ensures var next := ApplyMgmtText(parse, a, r.mgmtCfg).value;
      next == a.(cfgVersion := next.cfgVersion)
  {
    hide Trim, Cut, MgmtLines, ValidToken, ApplyEntries;
    var entries := MgmtEntries(MgmtLines(r.mgmtCfg));
    assert forall i :: 0 <= i < |entries| ==> entries[i].Setting? ==> entries[i].name == "cfgversion" by {
      assert forall i :: 0 <= i < |entries| ==> OnlyCfgVersionLine(MgmtLines(r.mgmtCfg)[i]);
    }
    OnlyCfgVersionEntries(parse, a, {}, entries);
  }

  lemma {:induction false} OnlyCfgVersionEntries(parse: UrlParser, a: Adoption, seen: set<string>, entries: seq<Entry>)
    requires ApplyEntries(parse, a, seen, entries).Some?
    requires forall i :: 0 <= i < |entries| ==> entries[i].Setting? ==> entries[i].name == "cfgversion"
    ensures var next := ApplyEntries(parse, a, seen, entries).value; next == a.(cfgVersion := next.cfgVersion)
    decreases |entries|
  {
    if entries != [] {
      match entries[0]
      case Blank => OnlyCfgVersionEntries(parse, a, seen, entries[1..]);
      case Setting(name, value) =>
        OnlyCfgVersionEntries(parse, a.(cfgVersion := value), seen + {name}, entries[1..]);
    }
  }
}
