/** What an accepted answer does, said setting by setting: which management texts are accepted, what each of the four
    settings becomes, and what every kind of answer reports. Nothing here is said through the transformer. */
module Settings {
  import opened Basics
  import opened Text
  import opened Letters
  import opened Hex
  import opened Adoption
  import opened Classify
  import opened OriginRuns

  // ---- The values that are accepted -----------------------------------------------------------------

  predicate MeansOn(value: string) {
    || Spells(value, "on") || Spells(value, "enabled") || Spells(value, "1") || Spells(value, "enable")
    || Spells(value, "active") || Spells(value, "true")
  }

  predicate MeansOff(value: string) {
    || Spells(value, "off") || Spells(value, "disabled") || Spells(value, "0") || Spells(value, "disable")
    || Spells(value, "inactive") || Spells(value, "false")
  }

  /** Text of 1 to 128 characters without control characters. */
  predicate ShortText(value: string) {
    1 <= |value| <= 128 && forall i :: 0 <= i < |value| ==> 32 <= value[i] as int != 127
  }

  /** 32 hexadecimal digits. */
  predicate KeyText(value: string) {
    |value| == 32 && forall i :: 0 <= i < 32 ==> '0' <= value[i] <= '9' || 'a' <= value[i] <= 'f' || 'A' <= value[i] <= 'F'
  }

  /** A known setting has a usable value; every other setting is passed over. */
  predicate Usual(parse: UrlParser, name: string, value: string) {
    && (name == "cfgversion" ==> ShortText(value))
    && (name == "inform_url" ==> Usable(parse, value))
    && (name == "authkey" ==> KeyText(value))
    && (name == "use_aes_gcm" ==> MeansOn(value) || MeansOff(value))
  }

  predicate IsNamed(e: Entry, name: string) {
    e.Setting? && e.name == name
  }

  predicate GoodEntry(parse: UrlParser, e: Entry) {
    e != Bad && (e.Setting? ==> Usual(parse, e.name, e.value))
  }

  /** Every entry is blank or good, and no name occurs twice or was seen before. */
  ghost predicate GoodEntries(parse: UrlParser, seen: set<string>, entries: seq<Entry>) {
    && (forall i :: 0 <= i < |entries| ==> GoodEntry(parse, entries[i]))
    && (forall i :: 0 <= i < |entries| && entries[i].Setting? ==> entries[i].name !in seen)
    && (forall i, j :: 0 <= i < j < |entries| && entries[i].Setting? && entries[j].Setting? ==> entries[i].name != entries[j].name)
  }

  lemma WordMeans(value: string)
    ensures ParseConfigBoolean(value) == if MeansOn(value) then Some(true) else if MeansOff(value) then Some(false) else None
  {
    hide Spells, LowerWord, MeansOn, MeansOff;
    WordIsOn(value);
    WordIsOff(value);
  }

  lemma WordIsOn(value: string)
    ensures LowerWord(value) in {"on", "enabled", "1", "enable", "active", "true"} <==> MeansOn(value)
  {
    hide Spells, LowerWord;
    SpellsExactly(value, "on");
    SpellsExactly(value, "enabled");
    SpellsExactly(value, "1");
    SpellsExactly(value, "enable");
    SpellsExactly(value, "active");
    SpellsExactly(value, "true");
  }

  lemma WordIsOff(value: string)
    ensures LowerWord(value) in {"off", "disabled", "0", "disable", "inactive", "false"} <==> MeansOff(value)
  {
    hide Spells, LowerWord;
    SpellsExactly(value, "off");
    SpellsExactly(value, "disabled");
    SpellsExactly(value, "0");
    SpellsExactly(value, "disable");
    SpellsExactly(value, "inactive");
    SpellsExactly(value, "false");
  }

  // ---- What each setting becomes --------------------------------------------------------------------

  /** The value that a setting is given, if any. */
  function Given(entries: seq<Entry>, name: string): (v: Option<string>)
    ensures v.Some? <==> exists i :: 0 <= i < |entries| && IsNamed(entries[i], name)
    ensures v.Some? ==> Setting(name, v.value) in entries
  {
    if entries == [] then None
    else if IsNamed(entries[0], name) then Some(entries[0].value)
    else Given(entries[1..], name)
  }

  function Or(given: Option<string>, otherwise: string): string {
    if given.Some? then given.value else otherwise
  }

  /** The state after all settings, each read off on its own. */
  function After(a: Adoption, entries: seq<Entry>): Adoption {
    a.(cfgVersion := Or(Given(entries, "cfgversion"), a.cfgVersion),
       informURL := Or(Given(entries, "inform_url"), a.informURL),
       authKey := if Given(entries, "authkey").Some? then ToLower(Given(entries, "authkey").value) else a.authKey,
       useGCM := a.useGCM || (Given(entries, "use_aes_gcm").Some? && MeansOn(Given(entries, "use_aes_gcm").value)))
  }

  lemma SettingIsUsual(parse: UrlParser, a: Adoption, name: string, value: string)
    ensures ApplySetting(parse, a, name, value).Some? <==> Usual(parse, name, value)
    ensures Usual(parse, name, value) && name == "use_aes_gcm" ==>
      ApplySetting(parse, a, name, value).value == a.(useGCM := a.useGCM || MeansOn(value))
  {
    hide MeansOn, MeansOff, Spells, ParseConfigBoolean, ToLower;
    WordMeans(value);
    UsableIsValid(parse, value);
  }

  lemma GivenFirst(name: string, value: string, rest: seq<Entry>, other: string)
    ensures Given([Setting(name, value)] + rest, other) == if other == name then Some(value) else Given(rest, other)
  {
    assert ([Setting(name, value)] + rest)[1..] == rest;
  }

  lemma SettingIs(parse: UrlParser, a: Adoption, name: string, value: string, rest: seq<Entry>)
    ensures ApplySetting(parse, a, name, value).Some? <==> Usual(parse, name, value)
    ensures Usual(parse, name, value) && Given(rest, name).None? ==>
      After(ApplySetting(parse, a, name, value).value, rest) == After(a, [Setting(name, value)] + rest)
  {
    hide MeansOn, ParseConfigBoolean, ToLower, Usual, Given, ValidConfigValue, ValidInformUrl, ValidKey;
    SettingIsUsual(parse, a, name, value);
    GivenFirst(name, value, rest, "cfgversion");
    GivenFirst(name, value, rest, "inform_url");
    GivenFirst(name, value, rest, "authkey");
    GivenFirst(name, value, rest, "use_aes_gcm");
  }

  lemma {:induction false} EntriesAre(parse: UrlParser, a: Adoption, seen: set<string>, entries: seq<Entry>)
    ensures ApplyEntries(parse, a, seen, entries).Some? <==> GoodEntries(parse, seen, entries)
    ensures GoodEntries(parse, seen, entries) ==> ApplyEntries(parse, a, seen, entries) == Some(After(a, entries))
    decreases |entries|
  {
    hide Usual, After, ApplySetting;
    if entries == [] {
      NothingGiven(a);
    } else {
      var rest := entries[1..];
      match entries[0]
      case Bad =>
      case Blank =>
        EntriesAre(parse, a, seen, rest);
        SkipsBlank(a, entries);
        GoodTail(parse, seen, entries);
      case Setting(name, value) =>
        assert entries == [Setting(name, value)] + rest;
        SettingIs(parse, a, name, value, rest);
        GoodTail(parse, seen, entries);
        if name !in seen && Usual(parse, name, value) {
          EntriesAre(parse, ApplySetting(parse, a, name, value).value, seen + {name}, rest);
        }
    }
  }

  lemma NothingGiven(a: Adoption)
    ensures After(a, []) == a
  {
  }

  lemma SkipsBlank(a: Adoption, entries: seq<Entry>)
    requires entries != [] && entries[0] == Blank
    ensures After(a, entries) == After(a, entries[1..])
  {
  }

  lemma GoodTail(parse: UrlParser, seen: set<string>, entries: seq<Entry>)
    requires entries != []
    ensures GoodEntries(parse, seen, entries) <==>
      && GoodEntry(parse, entries[0])
      && (entries[0].Setting? ==> entries[0].name !in seen)
      && GoodEntries(parse, if entries[0].Setting? then seen + {entries[0].name} else seen, entries[1..])
    ensures entries[0].Setting? && GoodEntries(parse, seen + {entries[0].name}, entries[1..]) ==>
      Given(entries[1..], entries[0].name).None?
  {
    hide GoodEntry;
  }

  /** The same text in small letters. */
  predicate SmallLetters(small: string, text: string) {
    && |small| == |text|
    && forall i :: 0 <= i < |text| ==>
        if 'A' <= text[i] <= 'Z' then small[i] as int == text[i] as int + 32 else small[i] == text[i]
  }

  /** Between two states every setting that is given takes its value, and everything else stays. */
  ghost predicate TakesEffect(entries: seq<Entry>, before: Adoption, after: Adoption) {
    && (forall v :: Setting("cfgversion", v) in entries ==> after.cfgVersion == v)
    && (forall v :: Setting("inform_url", v) in entries ==> after.informURL == v)
    && (forall v :: Setting("authkey", v) in entries ==>
          SmallLetters(after.authKey, v) && Decode(after.authKey) == Decode(v) && Decode(v).Some?)
    && (forall v :: Setting("use_aes_gcm", v) in entries ==> after.useGCM == (MeansOn(v) || before.useGCM))
    && ((forall v :: Setting("cfgversion", v) !in entries) ==> after.cfgVersion == before.cfgVersion)
    && ((forall v :: Setting("inform_url", v) !in entries) ==> after.informURL == before.informURL)
    && ((forall v :: Setting("authkey", v) !in entries) ==> after.authKey == before.authKey)
    && ((forall v :: Setting("use_aes_gcm", v) !in entries) ==> after.useGCM == before.useGCM)
  }

  lemma GivenOnce(parse: UrlParser, entries: seq<Entry>, name: string)
    requires GoodEntries(parse, {}, entries)
    ensures forall v :: Setting(name, v) in entries <==> Given(entries, name) == Some(v)
  {
    hide GoodEntry, Usual;
    forall v | Setting(name, v) in entries
      ensures Given(entries, name) == Some(v)
    {
      var i :| 0 <= i < |entries| && entries[i] == Setting(name, v);
      assert IsNamed(entries[i], name);
      var j :| 0 <= j < |entries| && entries[j] == Setting(name, Given(entries, name).value);
      assert i == j;
    }
  }

  lemma KeyIsSmall(value: string)
    requires KeyText(value)
    ensures SmallLetters(ToLower(value), value) && Decode(value).Some? && Decode(ToLower(value)) == Decode(value)
  {
    var small := ToLower(value);
    assert forall i :: 0 <= i < |value| ==> small[i] == LowerChar(value[i]);
    assert ToLower(small) == small;
    EqualFoldIsSameBytes(small, value);
  }

  lemma EntriesTakeEffect(parse: UrlParser, a: Adoption, entries: seq<Entry>)
    requires GoodEntries(parse, {}, entries)
    ensures TakesEffect(entries, a, After(a, entries)) && After(a, entries).adopted == a.adopted
  {
    hide MeansOn, Given, GoodEntries, KeyText, ToLower, SmallLetters, Decode;
    GivenOnce(parse, entries, "cfgversion");
    GivenOnce(parse, entries, "inform_url");
    GivenOnce(parse, entries, "authkey");
    GivenOnce(parse, entries, "use_aes_gcm");
    forall v | Setting("authkey", v) in entries
      ensures KeyText(v)
    {
      KeyIsGood(parse, entries, v);
    }
    if Given(entries, "authkey").Some? {
      KeyIsSmall(Given(entries, "authkey").value);
    }
  }

  lemma KeyIsGood(parse: UrlParser, entries: seq<Entry>, v: string)
    requires GoodEntries(parse, {}, entries) && Setting("authkey", v) in entries
    ensures KeyText(v)
  {
    hide KeyText;
    var i :| 0 <= i < |entries| && entries[i] == Setting("authkey", v);
    assert GoodEntry(parse, entries[i]);
  }

  function TextEntries(raw: string): seq<Entry> {
    MgmtEntries(MgmtLines(raw))
  }

  /** At most 64 KiB in fewer than 256 line ends, every line blank or a good setting, no setting twice. */
  ghost predicate GoodText(parse: UrlParser, raw: string) {
    |raw| <= 65536 && Newlines(raw) < 256 && GoodEntries(parse, {}, TextEntries(raw))
  }

  /** A management text is accepted exactly when it is good, and then each of its settings takes effect. */
  lemma SettingsTakeEffect(parse: UrlParser, a: Adoption, raw: string)
    ensures ApplyMgmtText(parse, a, raw).Some? <==> GoodText(parse, raw)
    ensures GoodText(parse, raw) ==>
      var next := ApplyMgmtText(parse, a, raw).value; TakesEffect(TextEntries(raw), a, next) && next.adopted == a.adopted
  {
    hide GoodEntries, ApplyEntries, MgmtEntries, MgmtLines, Newlines, TakesEffect, After;
    LineCount(raw);
    EntriesAre(parse, a, {}, TextEntries(raw));
    if GoodText(parse, raw) {
      EntriesTakeEffect(parse, a, TextEntries(raw));
    }
  }

  // ---- Texts that are written out -------------------------------------------------------------------

  predicate Pad(p: string) {
    forall i :: 0 <= i < |p| ==> p[i] == ' ' || p[i] == '\t'
  }

  /** Printable ASCII that neither starts nor ends with a blank. */
  predicate Word(w: string) {
    && w != "" && (forall i :: 0 <= i < |w| ==> 32 <= w[i] as int <= 126)
    && w[0] != ' ' && w[|w| - 1] != ' '
  }

  lemma {:induction false} TrimLeftPad(p: string, rest: string)
    requires Pad(p) && rest != "" && 32 < rest[0] as int <= 126
    ensures TrimLeft(p + rest, true) == rest
    decreases |p|
  {
    hide SpaceSize;
    var s := p + rest;
    if p == "" {
      assert s == rest && BlankStart(s, true) == 0;
    } else {
      assert s[1..] == p[1..] + rest;
      assert s[0] == p[0] && BlankStart(s, true) == 1;
      TrimLeftPad(p[1..], rest);
    }
  }

  lemma {:induction false} TrimRightPad(rest: string, p: string)
    requires Pad(p) && rest != "" && 32 < rest[|rest| - 1] as int <= 126
    ensures TrimRight(rest + p, true) == rest
    decreases |p|
  {
    hide SpaceSize;
    var s := rest + p;
    if p == "" {
      assert s == rest && BlankEnd(s, true) == 0;
    } else {
      assert s[..|s| - 1] == rest + p[..|p| - 1];
      assert s[|s| - 1] == p[|p| - 1] && BlankEnd(s, true) == 1;
      TrimRightPad(rest, p[..|p| - 1]);
    }
  }

  lemma TrimPads(p: string, core: string, q: string)
    requires Pad(p) && Pad(q) && core != "" && 32 < core[0] as int <= 126 && 32 < core[|core| - 1] as int <= 126
    ensures Trim(p + core + q, true) == core
  {
    assert p + core + q == p + (core + q) && (core + q)[0] == core[0];
    TrimLeftPad(p, core + q);
    TrimRightPad(core, q);
  }

  /** A setting as it may be written: blanks around the name, the sign and the value. */
  function Line(p: string, name: string, q: string, value: string): string {
    p + name + p + "=" + q + value + q
  }

  lemma LineSets(p: string, name: string, q: string, value: string)
    requires Pad(p) && Pad(q) && ValidToken(name, 64) && Word(value) && |name| + |p| + 1 + |q| + |value| <= 255
    ensures MgmtEntry(Line(p, name, q, value)) == Setting(name, value)
  {
    hide Trim;
    var left, right := name + p, q + value;
    var line := left + "=" + right;
    assert line[0] == name[0] && TokenChar(name[0]) && TokenChar(name[|name| - 1]);
    assert line[|line| - 1] == value[|value| - 1];
    TrimPads(p, line, q);
    assert Line(p, name, q, value) == p + line + q;
    assert '=' !in left by {
      assert forall i :: 0 <= i < |name| ==> TokenChar(name[i]);
    }
    CutAt(left, right);
    TrimPads("", name, p);
    assert "" + name + p == left;
    TrimPads(q, value, "");
    assert q + value + "" == right;
  }

  lemma {:induction false} LineEndSplits(line: string, end: char, rest: string)
    requires (end == '\n' || end == '\r') && '\n' !in line && '\r' !in line
    ensures MgmtLines(line + [end] + rest) == [line] + MgmtLines(rest)
    decreases |line|
  {
    var text := line + [end] + rest;
    if line == "" {
      assert NewlineFor(text)[1..] == NewlineFor(rest);
    } else {
      LineEndSplits(line[1..], end, rest);
      assert text[1..] == line[1..] + [end] + rest;
      assert NewlineFor(text)[1..] == NewlineFor(text[1..]);
      assert text[0] == line[0] && line[0] in line;
      assert [line[0]] + line[1..] == line;
    }
  }

  predicate Writable(e: Entry, p: string, q: string) {
    && e.Setting? && ValidToken(e.name, 64) && Word(e.value) && |e.name| + 2 * |p| + 1 + 2 * |q| + |e.value| <= 255
  }

  predicate AllWritable(settings: seq<Entry>, p: string, q: string) {
    forall i :: 0 <= i < |settings| ==> Writable(settings[i], p, q)
  }

  /** Settings written one to a line, all with the same blanks and the same line end. */
  function Written(settings: seq<Entry>, p: string, q: string, end: char): string
    requires AllWritable(settings, p, q)
  {
    if settings == [] then ""
    else Line(p, settings[0].name, q, settings[0].value) + [end] + Written(settings[1..], p, q, end)
  }

  lemma {:induction false} WrittenIsRead(settings: seq<Entry>, p: string, q: string, end: char)
    requires Pad(p) && Pad(q) && (end == '\n' || end == '\r')
    requires AllWritable(settings, p, q)
    ensures MgmtEntries(MgmtLines(Written(settings, p, q, end))) == settings + [Blank]
  {
    hide MgmtEntry, Line;
    if settings == [] {
      EmptyIsBlank();
    } else {
      var e := settings[0];
      var line, rest := Line(p, e.name, q, e.value), Written(settings[1..], p, q, end);
      LineIsPlain(p, e, q);
      LineEndSplits(line, end, rest);
      LineSets(p, e.name, q, e.value);
      WrittenIsRead(settings[1..], p, q, end);
      HeadTail([line] + MgmtLines(rest));
      assert ([line] + MgmtLines(rest))[1..] == MgmtLines(rest);
    }
  }

  lemma LineIsPlain(p: string, e: Entry, q: string)
    requires Pad(p) && Pad(q) && Writable(e, p, q)
    ensures '\n' !in Line(p, e.name, q, e.value) && '\r' !in Line(p, e.name, q, e.value)
  {
    assert forall i :: 0 <= i < |e.name| ==> TokenChar(e.name[i]);
  }

  lemma OneMoreBlank(parse: UrlParser, settings: seq<Entry>)
    ensures GoodEntries(parse, {}, settings) ==> GoodEntries(parse, {}, settings + [Blank])
    ensures forall before, after :: TakesEffect(settings + [Blank], before, after) ==> TakesEffect(settings, before, after)
  {
    hide Usual, MeansOn, Decode, SmallLetters;
    var entries := settings + [Blank];
    assert forall e :: e in settings ==> e in entries;
    assert forall e :: e in entries && e != Blank ==> e in settings;
    assert GoodEntry(parse, Blank);
  }

  /** Good settings, written down with any blanks around them, are accepted, and each takes effect. */
  lemma WrittenTextTakesEffect(parse: UrlParser, a: Adoption, settings: seq<Entry>, p: string, q: string, end: char)
    requires Pad(p) && Pad(q) && (end == '\n' || end == '\r') && |settings| < 256 && AllWritable(settings, p, q)
    requires GoodEntries(parse, {}, settings) && |Written(settings, p, q, end)| <= 65536
    ensures var next := ApplyMgmtText(parse, a, Written(settings, p, q, end));
      next.Some? && TakesEffect(settings, a, next.value) && next.value.adopted == a.adopted
  {
    hide AllWritable, GoodEntries, TakesEffect, ApplyMgmtText, MgmtLines, MgmtEntries, Newlines, Written;
    var text := Written(settings, p, q, end);
    WrittenIsRead(settings, p, q, end);
    LineCount(text);
    OneMoreBlank(parse, settings);
    SettingsTakeEffect(parse, a, text);
    assert |TextEntries(text)| == |settings| + 1;
  }

  // ---- Settings that are reported and ignored ---------------------------------------------------------

  predicate Begins(line: string, prefix: string) {
    Cut(line).Some? && prefix <= Trim(Cut(line).value.0, true)
  }

  predicate Assigns(line: string, name: string) {
    Cut(line).Some? && Trim(Cut(line).value.0, true) == name
  }

  /** The line asks for something that is not supported, by the name under which that is reported. */
  predicate AsksFor(line: string, category: string) {
    || (category == "nut-server" && Begins(line, "nutserver."))
    || (category == "power-cycle-on-ac-recovery" && Begins(line, "power_cycle_on_ac_recovery."))
    || (category == "buzzer" && Assigns(line, "beep.status"))
    || (category == "outlet-power" && Assigns(line, "outlet.status"))
    || (category == "emergency-power-off" && (Begins(line, "epo.") || Begins(line, "emergency_power_off.")))
  }

  lemma CategoryIs(line: string, k: nat)
    requires k < |CATEGORIES|
    ensures CategoryOf(line) == Some(k) <==> AsksFor(line, CATEGORIES[k])
  {
    hide Trim, Cut;
    if Cut(line).Some? {
      var name := Trim(Cut(line).value.0, true);
      Firsts(name);
    }
  }

  lemma Firsts(name: string)
    ensures "nutserver." <= name ==> name[0] == 'n'
    ensures "power_cycle_on_ac_recovery." <= name ==> name[0] == 'p'
    ensures name == "beep.status" ==> name[0] == 'b'
    ensures name == "outlet.status" ==> name[0] == 'o'
    ensures "epo." <= name || "emergency_power_off." <= name ==> name[0] == 'e'
  {
  }

  /** A name is reported exactly when one of the first 512 lines of the first 64 KiB asks for it. */
  lemma IgnoredExactly(raw: string, category: string)
    ensures var lines := MgmtLines(if |raw| > 65536 then raw[..65536] else raw);
      category in Ignored(raw) <==> exists i :: 0 <= i < |lines| && i < 512 && AsksFor(lines[i], category)
  {
    hide AsksFor, CategoryOf, Ignored, MgmtLines, Mentions;
    var lines := MgmtLines(if |raw| > 65536 then raw[..65536] else raw);
    IgnoredAre(raw, category);
    if category in Ignored(raw) {
      var k: nat :| k < |CATEGORIES| && CATEGORIES[k] == category && Mentions(Scanned(raw), k);
      var i := MentionedAt(Scanned(raw), k);
      assert Scanned(raw)[i] == lines[i];
      CategoryIs(lines[i], k);
    }
    if i :| 0 <= i < |lines| && i < 512 && AsksFor(lines[i], category) {
      var k := PlaceOf(lines[i], category);
      assert Scanned(raw)[i] == lines[i];
      CategoryIs(lines[i], k);
      IsMentioned(Scanned(raw), k, i);
    }
  }

  lemma MentionedAt(lines: seq<string>, k: nat) returns (i: nat)
    requires Mentions(lines, k)
    ensures i < |lines| && CategoryOf(lines[i]) == Some(k)
  {
    hide CategoryOf;
    i :| 0 <= i < |lines| && CategoryOf(lines[i]) == Some(k);
  }

  lemma IsMentioned(lines: seq<string>, k: nat, i: nat)
    requires i < |lines| && CategoryOf(lines[i]) == Some(k)
    ensures Mentions(lines, k)
  {
    hide CategoryOf;
  }

  lemma PlaceOf(line: string, category: string) returns (k: nat)
    requires AsksFor(line, category)
    ensures k < |CATEGORIES| && CATEGORIES[k] == category
  {
    hide Begins, Assigns;
    k := if category == CATEGORIES[0] then 0 else if category == CATEGORIES[1] then 1
         else if category == CATEGORIES[2] then 2 else if category == CATEGORIES[3] then 3 else 4;
  }

  // ---- Whole answers --------------------------------------------------------------------------------

  /** The answers that are understood. */
  ghost predicate GoodAnswer(parse: UrlParser, r: Response) {
    || (r.kind == "noop" && 0 <= r.interval <= 86400)
    || (r.kind == "setparam" && GoodText(parse, r.mgmtCfg))
    || r.kind == "setdefault"
    || r.kind == "reboot"
    || (r.kind == "upgrade" && (r.version == "" || ShortText(r.version)))
    || (r.kind == "cmd" && ValidToken(r.command, 64) && (r.command == "relayctl" ==> r.relayRows.Some?))
  }

  lemma KindIsToken(kind: string)
    requires kind in {"noop", "setparam", "setdefault", "reboot", "upgrade", "cmd"}
    ensures ValidToken(kind, 32)
  {
  }

  /** What an accepted answer makes of the state and reports, kind by kind. */
  ghost predicate Answered(r: Response, a: Adoption, next: Adoption, out: Outcome) {
    && (r.kind == "noop" ==>
          next == a.(adopted := true) && out == Outcome(Noop, r.interval, !a.adopted, false, false, "", [], []))
    && (r.kind == "setparam" ==>
          && TakesEffect(TextEntries(r.mgmtCfg), a, next) && next.adopted
          && out == Outcome(SetParam, 0, next != a, next.informURL != a.informURL, false, "", [], Ignored(r.systemCfg)))
    && (r.kind == "setdefault" ==>
          && next == Adoption("ba86f2bbe107c7c57eb5f2690775c712", a.informURL, "0", false, false)
          && out == Outcome(FactoryReset, 0, a != next.(authKey := a.authKey) || !SameLetters(a.authKey, next.authKey),
                            false, false, "", [], []))
    && (r.kind == "reboot" ==>
          next == a.(adopted := true) && out == Outcome(Reboot, 0, !a.adopted, false, true, "", [], []))
    && (r.kind == "upgrade" ==>
          next == a.(adopted := true) && out == Outcome(Upgrade, 0, !a.adopted, false, true, r.version, [], []))
    && (r.kind == "cmd" && r.command != "relayctl" ==>
          next == a.(adopted := true) && out == Outcome(IgnoredCommand, 0, !a.adopted, false, false, "", [], []))
    && (r.kind == "cmd" && r.command == "relayctl" ==>
          && r.relayRows.Some? && next == a.(adopted := true)
          && out == Outcome(RelayControl, 0, !a.adopted, false, false, "", r.relayRows.value, []))
  }

  lemma DispatchAnswers(parse: UrlParser, a: Adoption, r: Response)
    ensures Dispatch(parse, a, r).Some? <==> GoodAnswer(parse, r)
    ensures Dispatch(parse, a, r).Some? ==> Answered(r, a, Dispatch(parse, a, r).value.0, Dispatch(parse, a, r).value.1)
  {
    hide ApplyMgmtText, GoodText, TakesEffect, ValidToken, TextEntries, Ignored;
    FoldIsLetters(a.authKey, DEFAULT_KEY);
    SettingsTakeEffect(parse, a, r.mgmtCfg);
    if r.kind == "setparam" && GoodText(parse, r.mgmtCfg) {
      StaysManaged(TextEntries(r.mgmtCfg), a, ApplyMgmtText(parse, a, r.mgmtCfg).value);
    }
  }

  lemma StaysManaged(entries: seq<Entry>, a: Adoption, next: Adoption)
    requires TakesEffect(entries, a, next)
    ensures TakesEffect(entries, a, next.(adopted := true))
  {
    hide MeansOn;
  }

  lemma GivenIsUsual(parse: UrlParser, entries: seq<Entry>, name: string)
    requires GoodEntries(parse, {}, entries) && Given(entries, name).Some?
    ensures Usual(parse, name, Given(entries, name).value)
  {
    hide Usual, Given;
    var i :| 0 <= i < |entries| && entries[i] == Setting(name, Given(entries, name).value);
    assert GoodEntry(parse, entries[i]);
  }

  lemma AfterIsValid(parse: UrlParser, a: Adoption, entries: seq<Entry>)
    requires a.Valid(parse) && GoodEntries(parse, {}, entries)
    ensures After(a, entries).(adopted := true).Valid(parse)
  {
    hide GoodEntries, Given, MeansOn, MeansOff, AcceptableUrl;
    if Given(entries, "cfgversion").Some? {
      GivenIsUsual(parse, entries, "cfgversion");
    }
    if Given(entries, "inform_url").Some? {
      GivenIsUsual(parse, entries, "inform_url");
      UsableIsValid(parse, Given(entries, "inform_url").value);
    }
    if Given(entries, "authkey").Some? {
      GivenIsUsual(parse, entries, "authkey");
      KeyIsSmall(Given(entries, "authkey").value);
    }
  }

  lemma NextIsValid(parse: UrlParser, a: Adoption, r: Response)
    requires a.Valid(parse) && Dispatch(parse, a, r).Some?
    ensures Dispatch(parse, a, r).value.0.Valid(parse)
  {
    hide MgmtLines, MgmtEntries, After, ApplyEntries, ValidToken, Ignored, AcceptableUrl, DEFAULT_KEY;
    DefaultKeyIsValid();
    if r.kind == "setparam" {
      EntriesAre(parse, a, {}, TextEntries(r.mgmtCfg));
      AfterIsValid(parse, a, TextEntries(r.mgmtCfg));
    }
  }

  /** An answer is accepted exactly when it has a usable size, decodes and is understood; its effect and its report are
      those of its kind. */
  lemma AnswerIsApplied(parse: UrlParser, a: Adoption, body: Body)
    requires a.Valid(parse)
    ensures Apply(parse, a, body).Some? <==>
      1 <= body.size <= 262144 && body.response.Some? && GoodAnswer(parse, body.response.value)
    ensures Apply(parse, a, body).Some? ==>
      Answered(body.response.value, a, Apply(parse, a, body).value.0, Apply(parse, a, body).value.1)
  {
    hide Adoption.Valid, Dispatch, GoodText, Answered, ValidToken;
    if body.response.Some? {
      var r := body.response.value;
      DispatchAnswers(parse, a, r);
      if Dispatch(parse, a, r).Some? {
        NextIsValid(parse, a, r);
        KindIsToken(r.kind);
      }
    }
  }
}
