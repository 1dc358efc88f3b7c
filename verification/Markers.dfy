/** Which answers count as receipts and which texts as firmware versions, said without the classifiers' own recursion:
    settings by their place in the text, versions as written-out numbers. */
module Markers {
  import opened Basics
  import opened Text
  import opened Adoption
  import opened Classify
  import opened Settings

  // ---- Versions ----------------------------------------------------------------------------------------

  /** A number in decimal digits. */
  function Decimal(n: nat): (s: string)
    ensures s != ""
  {
    if n < 10 then [(48 + n) as char] else Decimal(n / 10) + [(48 + n % 10) as char]
  }

  lemma {:induction false} DecimalReads(n: nat)
    ensures Digits(Decimal(n)) && DecimalValue(Decimal(n)) == n
    ensures |Decimal(n)| > 1 ==> Decimal(n)[0] != '0'
    ensures Decimal(n)[0] == '0' ==> n == 0
  {
    var s := Decimal(n);
    if n < 10 {
      assert s[..|s| - 1] == "" && DecimalValue("") == 0;
    } else {
      DecimalReads(n / 10);
      assert s[..|s| - 1] == Decimal(n / 10);
      assert s[0] == Decimal(n / 10)[0];
    }
  }

  lemma OneDigitMore(n: nat, d: nat)
    requires n >= 1 && d < 10
    ensures n * 10 + d >= 10 && Decimal(n * 10 + d) == Decimal(n) + [(48 + d) as char]
  {
    assert (n * 10 + d) / 10 == n && (n * 10 + d) % 10 == d;
  }

  lemma {:induction false} DigitsAreDecimal(s: string)
    requires s != "" && Digits(s) && (|s| > 1 ==> s[0] != '0')
    ensures s == Decimal(DecimalValue(s)) && (|s| > 1 ==> DecimalValue(s) >= 10)
  {
    hide Decimal;
    var init, last := s[..|s| - 1], s[|s| - 1];
    var d: nat := last as int - 48;
    assert s == init + [last] && (48 + d) as char == last;
    if init == "" {
      assert DecimalValue(s) == d;
      OneDigit(d);
    } else {
      assert init[0] == s[0] && init[0] != '0';
      DigitsAreDecimal(init);
      NotZero(init);
      OneDigitMore(DecimalValue(init), d);
    }
  }

  lemma OneDigit(d: nat)
    requires d < 10
    ensures Decimal(d) == [(48 + d) as char]
  {
  }

  lemma NotZero(s: string)
    requires s != "" && Digits(s) && s[0] != '0'
    ensures DecimalValue(s) >= 1
  {
    if |s| > 1 {
      NotZero(s[..|s| - 1]);
    } else {
      assert DecimalValue(s[..0]) == 0;
    }
  }

  lemma {:induction false} DecimalIsShort(n: nat, digits: nat, bound: nat)
    requires digits > 0 && n < bound && bound <= Power(digits)
    ensures |Decimal(n)| <= digits
    decreases digits
  {
    if n >= 10 {
      assert digits > 1;
      DecimalIsShort(n / 10, digits - 1, Power(digits - 1));
    }
  }

  function Power(digits: nat): (p: nat)
    ensures p >= 1
  {
    if digits == 0 then 1 else 10 * Power(digits - 1)
  }

  /** A part of a version is a number below 2^32, written out. */
  lemma PartExactly(p: string)
    ensures VersionPart(p) <==> exists n: nat :: n < 4294967296 && p == Decimal(n)
  {
    if VersionPart(p) {
      DigitsAreDecimal(p);
    }
    if n: nat :| n < 4294967296 && p == Decimal(n) {
      DecimalReads(n);
      assert Power(10) == 10000000000;
      DecimalIsShort(n, 10, 4294967296);
    }
  }

  lemma WrittenPart(n: nat)
    requires n < 4294967296
    ensures VersionPart(Decimal(n))
  {
    PartExactly(Decimal(n));
  }

  function Dotted(numbers: seq<nat>): string
    requires numbers != []
  {
    if |numbers| == 1 then Decimal(numbers[0]) else Decimal(numbers[0]) + "." + Dotted(numbers[1..])
  }

  lemma {:induction false} SplitFirst(part: string, rest: string)
    requires '.' !in part
    ensures Split(part, '.') == [part] && Split(part + "." + rest, '.') == [part] + Split(rest, '.')
  {
    var s := part + "." + rest;
    if part == "" {
      assert s[1..] == rest;
    } else {
      SplitFirst(part[1..], rest);
      assert s[1..] == part[1..] + "." + rest && part == [part[0]] + part[1..] && part[0] in part;
    }
  }

  lemma {:induction false} DottedSplits(numbers: seq<nat>)
    requires numbers != [] && forall i :: 0 <= i < |numbers| ==> numbers[i] < 4294967296
    ensures var parts := Split(Dotted(numbers), '.');
      |parts| == |numbers| && forall i :: 0 <= i < |numbers| ==> parts[i] == Decimal(numbers[i])
    ensures |Dotted(numbers)| <= 11 * |numbers| - 1
  {
    hide Decimal;
    var n := numbers[0];
    DecimalReads(n);
    assert Power(10) == 10000000000;
    DecimalIsShort(n, 10, 4294967296);
    if |numbers| == 1 {
      SplitFirst(Decimal(n), "");
    } else {
      DottedSplits(numbers[1..]);
      SplitFirst(Decimal(n), Dotted(numbers[1..]));
    }
  }

  lemma {:induction false} PartsAreNumbers(s: string) returns (numbers: seq<nat>)
    requires forall i :: 0 <= i < |Split(s, '.')| ==> VersionPart(Split(s, '.')[i])
    ensures |numbers| == |Split(s, '.')| && (forall i :: 0 <= i < |numbers| ==> numbers[i] < 4294967296)
    ensures numbers != [] && s == Dotted(numbers)
    decreases |s|
  {
    hide VersionPart, Decimal;
    var parts := Split(s, '.');
    PartExactly(parts[0]);
    var n: nat :| n < 4294967296 && parts[0] == Decimal(n);
    var rest := SplitRest(s);
    if rest.None? {
      numbers := [n];
    } else {
      assert forall i :: 0 <= i < |Split(rest.value, '.')| ==> Split(rest.value, '.')[i] == parts[i + 1];
      var more := PartsAreNumbers(rest.value);
      numbers := [n] + more;
      assert numbers[1..] == more;
    }
  }

  /** What follows the first dot. */
  lemma {:induction false} SplitRest(s: string) returns (rest: Option<string>)
    ensures var parts := Split(s, '.');
      match rest
      case None => parts == [s]
      case Some(r) => s == parts[0] + "." + r && parts[1..] == Split(r, '.') && |r| < |s|
  {
    if s == "" {
      rest := None;
    } else if s[0] == '.' {
      rest := Some(s[1..]);
      assert s == "" + "." + s[1..];
    } else {
      rest := SplitRest(s[1..]);
      LongerFirst(s, rest);
    }
  }

  lemma LongerFirst(s: string, rest: Option<string>)
    requires s != "" && s[0] != '.'
    requires var parts := Split(s[1..], '.');
      match rest
      case None => parts == [s[1..]]
      case Some(r) => s[1..] == parts[0] + "." + r && parts[1..] == Split(r, '.')
    ensures var parts := Split(s, '.');
      match rest
      case None => parts == [s]
      case Some(r) => s == parts[0] + "." + r && parts[1..] == Split(r, '.')
  {
    var tail, parts := Split(s[1..], '.'), Split(s, '.');
    assert parts[0] == [s[0]] + tail[0] && parts[1..] == tail[1..];
    assert s == [s[0]] + s[1..];
    if rest.Some? {
      var dotted := "." + rest.value;
      assert s[1..] == tail[0] + dotted;
      assert s == parts[0] + dotted;
    }
  }

  /** Three or four numbers below 2^32 with dots between them. */
  predicate IsVersion(v: string, numbers: seq<nat>) {
    && (|numbers| == 3 || |numbers| == 4) && v == Dotted(numbers)
    && forall i :: 0 <= i < |numbers| ==> numbers[i] < 4294967296
  }

  /** The firmware versions that can be reported. */
  lemma VersionExactly(v: string)
    ensures ValidVersion(v) <==> exists numbers :: IsVersion(v, numbers)
  {
    hide VersionPart, Decimal, Dotted, Split;
    if ValidVersion(v) {
      var numbers := PartsAreNumbers(v);
      assert IsVersion(v, numbers);
    }
    if numbers :| IsVersion(v, numbers) {
      DottedSplits(numbers);
      var parts := Split(v, '.');
      forall i | 0 <= i < |parts|
        ensures VersionPart(parts[i])
      {
        WrittenPart(numbers[i]);
      }
    }
  }

  // ---- Receipts -------------------------------------------------------------------------------------

  /** The settings a receipt may hold: a version, GCM switched on in one spelling, and six that mean nothing here. */
  predicate Harmless(e: Entry) {
    && e != Bad
    && (e.Setting? ==>
          || (e.name == "cfgversion" && ShortText(e.value))
          || (e.name == "use_aes_gcm" && e.value == "true")
          || e.name in {"capability", "led_enabled", "mgmt_url", "report_crash", "selfrun_guest_mode", "stun_url"})
  }

  /** Nothing but harmless settings, none twice or seen before. */
  ghost predicate OnlyHarmless(seen: set<string>, entries: seq<Entry>) {
    && (forall i :: 0 <= i < |entries| ==> Harmless(entries[i]))
    && (forall i :: 0 <= i < |entries| && entries[i].Setting? ==> entries[i].name !in seen)
    && (forall i, j :: 0 <= i < j < |entries| && entries[i].Setting? && entries[j].Setting? ==> entries[i].name != entries[j].name)
  }

  lemma {:induction false} EntriesAreHarmless(seen: set<string>, version: string, entries: seq<Entry>)
    ensures ClassifyEntries(seen, version, entries).Some? <==> OnlyHarmless(seen, entries)
    ensures OnlyHarmless(seen, entries) ==>
      ClassifyEntries(seen, version, entries) == Some(Or(Given(entries, "cfgversion"), version))
    decreases |entries|
  {
    hide ShortText, ValidConfigValue, OnlyHarmless;
    if entries == [] {
      NothingHarms(seen);
    } else {
      var rest := entries[1..];
      HarmlessTail(seen, entries);
      match entries[0]
      case Bad =>
      case Blank => EntriesAreHarmless(seen, version, rest);
      case Setting(name, value) =>
        ShortIsConfig(value);
        if Harmless(entries[0]) && name !in seen {
          EntriesAreHarmless(seen + {name}, if name == "cfgversion" then value else version, rest);
        }
    }
  }

  lemma ShortIsConfig(value: string)
    ensures ShortText(value) <==> ValidConfigValue(value, 128)
  {
  }

  lemma NothingHarms(seen: set<string>)
    ensures OnlyHarmless(seen, [])
  {
  }

  lemma HarmlessTail(seen: set<string>, entries: seq<Entry>)
    requires entries != []
    ensures OnlyHarmless(seen, entries) <==>
      && Harmless(entries[0])
      && (entries[0].Setting? ==> entries[0].name !in seen)
      && OnlyHarmless(if entries[0].Setting? then seen + {entries[0].name} else seen, entries[1..])
    ensures entries[0].Setting? && OnlyHarmless(seen + {entries[0].name}, entries[1..]) ==>
      Given(entries[1..], entries[0].name).None?
  {
    hide Harmless;
  }

  /** The text of a receipt: printable apart from tabs and line ends, at most 256 lines of harmless settings, with a
      version among them. */
  ghost predicate ReceiptText(text: string, version: string) {
    && 1 <= |text| <= 65536 && |ReceiptLines(text)| <= 256
    && (forall i :: 0 <= i < |text| ==> 32 <= text[i] as int <= 126 || text[i] == '\t' || text[i] == '\n' || text[i] == '\r')
    && OnlyHarmless({}, ReceiptEntries(ReceiptLines(text)))
    && Setting("cfgversion", version) in ReceiptEntries(ReceiptLines(text))
  }

  lemma TextExactly(text: string, version: string)
    ensures ClassifyText(text) == Some(version) <==> ReceiptText(text, version)
  {
    hide ReceiptLines, ReceiptEntries, OnlyHarmless, ClassifyEntries;
    var entries := ReceiptEntries(ReceiptLines(text));
    EntriesAreHarmless({}, "", entries);
    if OnlyHarmless({}, entries) {
      VersionIsGiven(entries, version);
    }
    assert forall i :: 0 <= i < |text| ==>
      (ReceiptChar(text[i]) <==> 32 <= text[i] as int <= 126 || text[i] == '\t' || text[i] == '\n' || text[i] == '\r');
  }

  lemma VersionIsGiven(entries: seq<Entry>, version: string)
    requires OnlyHarmless({}, entries)
    ensures Given(entries, "cfgversion").Some? ==> Given(entries, "cfgversion").value != ""
    ensures Setting("cfgversion", version) in entries <==> Given(entries, "cfgversion") == Some(version)
  {
    if Given(entries, "cfgversion").Some? {
      var v := Given(entries, "cfgversion").value;
      var i :| 0 <= i < |entries| && entries[i] == Setting("cfgversion", v);
      assert Harmless(entries[i]);
      if Setting("cfgversion", version) in entries {
        var j :| 0 <= j < |entries| && entries[j] == Setting("cfgversion", version);
        assert i == j;
      }
    }
    if i :| 0 <= i < |entries| && entries[i] == Setting("cfgversion", version) {
      assert IsNamed(entries[i], "cfgversion");
    }
  }

  /** The field, if present, is a millisecond time stamp of 13 digits. */
  predicate Stamped(fields: map<string, string>) {
    "server_time_in_utc" in fields ==>
      && |fields["server_time_in_utc"]| == 13
      && forall i :: 0 <= i < 13 ==> '0' <= fields["server_time_in_utc"][i] <= '9'
  }

  /** A setparam answer of six known fields with a receipt text, whose other fields say nothing more. */
  ghost predicate IsReceipt(body: Body, version: string) {
    && 1 <= body.size <= 262144 && body.utf8 && body.exact.Some?
    && var fields := body.exact.value;
    && (forall k :: k in fields ==> k in {"_type", "mgmt_cfg", "system_cfg", "cfgversion", "server_time_in_utc", "blocked_sta"})
    && "_type" in fields && fields["_type"] == "setparam"
    && "mgmt_cfg" in fields && ReceiptText(fields["mgmt_cfg"], version)
    && ("system_cfg" in fields ==> |fields["system_cfg"]| <= 65536)
    && ("cfgversion" in fields ==> fields["cfgversion"] == version)
    && ("blocked_sta" in fields ==> fields["blocked_sta"] == "")
    && Stamped(fields)
  }

  /** An answer is taken for a receipt of a version exactly when it is one. */
  lemma ReceiptsExactly(body: Body, version: string)
    ensures (ClassifyReceipt(body).Some? && ClassifyReceipt(body).value.cfgVersion == version) <==> IsReceipt(body, version)
    ensures ClassifyReceipt(body).Some? ==>
      ClassifyReceipt(body).value.unsupported == Ignored(Field(body.exact.value, "system_cfg"))
  {
    hide ReceiptText, ClassifyText, Ignored;
    if body.exact.Some? {
      TextExactly(Field(body.exact.value, "mgmt_cfg"), version);
      NoTextNoReceipt(version);
    }
  }

  lemma NoTextNoReceipt(version: string)
    ensures !ReceiptText("", version)
  {
  }

  /** An upgrade answer of six known fields with a firmware version; address and digests are only checked for form. */
  ghost predicate IsTarget(body: Body, version: string) {
    && 1 <= body.size <= 16384 && body.utf8 && body.exact.Some?
    && var fields := body.exact.value;
    && (forall k :: k in fields ==> k in {"_type", "version", "url", "server_time_in_utc", "md5sum", "sha256sum"})
    && "_type" in fields && fields["_type"] == "upgrade"
    && "version" in fields && fields["version"] == version && (exists numbers :: IsVersion(version, numbers))
    && ("url" in fields ==>
          1 <= |fields["url"]| <= 2048 && forall i :: 0 <= i < |fields["url"]| ==> 32 <= fields["url"][i] as int <= 126)
    && ("md5sum" in fields ==> HexText(fields["md5sum"], 32))
    && ("sha256sum" in fields ==> HexText(fields["sha256sum"], 64))
    && Stamped(fields)
  }

  predicate HexText(s: string, size: nat) {
    |s| == size && forall i :: 0 <= i < |s| ==> '0' <= s[i] <= '9' || 'a' <= s[i] <= 'f' || 'A' <= s[i] <= 'F'
  }

  /** An answer is taken for a firmware target exactly when it is one. */
  lemma TargetsExactly(body: Body, version: string)
    ensures ClassifyTarget(body) == Some(version) <==> IsTarget(body, version)
  {
    hide ValidVersion, IsVersion;
    VersionExactly(version);
    NoNumbers();
  }

  lemma NoNumbers()
    ensures !ValidVersion("")
  {
    assert Split("", '.') == [""];
  }
}
