/** What the status message looks like, and what a message that is not one, or lacks a key, leaves alone. */
module StatusMessageLaws {
  import opened Common
  import opened StatusJson
  import opened StatusJsonLaws

  // ---------------------------------------------------------------- the text printed

  /** Digits are the ten characters from '0' on, most significant first. */
  lemma DigitsAreDecimal(n: nat)
    ensures n < 10 ==> Digits(n) == [(48 + n) as char]
    ensures n >= 10 ==> Digits(n) == Digits(n / 10) + [(48 + n % 10) as char]
  {}

  /** The time printed, which the extractor leaves alone, is there to be read. */
  lemma TimestampFound(s: Status)
    ensures IntAt(CreateStatusMessage(s), "timestamp") == Some(s.timestamp)
  {
    hide Render, PrintInt, AllClean, IntAt, NotBefore, HeadSegments, DiskSegments, SystemSegments;
    CleanMessage(s);
    var head, disks := HeadSegments(s), DiskSegments("ssd1", s.ssd1) + DiskSegments("ssd2", s.ssd2);
    AllCleanOfSum([], DiskSegments("ssd1", s.ssd1), DiskSegments("ssd2", s.ssd2));
    assert [] + DiskSegments("ssd1", s.ssd1) + DiskSegments("ssd2", s.ssd2) == disks;
    AllCleanOfSum(head, disks, SystemSegments(s));
    var g := head + disks + SystemSegments(s);
    assert Segments(s) == g;
    TimestampSegment(s, disks + SystemSegments(s));
    assert head + (disks + SystemSegments(s)) == g;
    IntFound("{", g, 2, "timestamp", s.timestamp, ",");
  }

  lemma TimestampSegment(s: Status, more: seq<Segment>)
    ensures var g := HeadSegments(s) + more;
            |g| >= 3 && g[2] == Segment("timestamp", ":" + PrintInt(s.timestamp) + ",") && NotBefore(g, 2, "timestamp")
    ensures IsKey("timestamp")
  {
    hide PrintInt;
    assert |"type"| == 4 && |"aquila_system_status"| == 20 && |"timestamp"| == 9;
  }

  // ---------------------------------------------------------------- what is refused

  ghost predicate Occurs(h: string, p: string) {
    exists q :: OccursAt(h, p, q)
  }

  predicate OccursAt(h: string, p: string, q: int) {
    0 <= q <= |h| && p <= h[q..]
  }

  lemma FindsWhatOccurs(h: string, p: string)
    ensures Find(h, p) >= 0 <==> Occurs(h, p)
  {
    hide Find;
    if Find(h, p) >= 0 {
      assert OccursAt(h, p, Find(h, p));
    }
  }

  /** Refused, and nothing changed: no text, fewer than ten characters, or no `aquila_system_status` anywhere.
      Anything else is taken and stamped. */
  lemma RefusedIff(f: Fields, json: Option<string>, now: int)
    ensures IsStatusMessage(json)
            <==> json.Some? && |json.value| >= 10 && Occurs(json.value, "aquila_system_status")
    ensures !IsStatusMessage(json) ==> Updated(f, json, now) == f
    ensures IsStatusMessage(json) ==> Updated(f, json, now).lastUpdate == now && Updated(f, json, now).dataValid
  {
    hide Find, DisksUpdated, SystemUpdated, Occurs;
    if json.Some? {
      FindsWhatOccurs(json.value, "aquila_system_status");
    }
  }

  // ---------------------------------------------------------------- keys that are not there

  ghost predicate Lacks(json: string, key: string) {
    !Occurs(json, "\"" + key + "\":")
  }

  lemma LackedInTheRest(json: string, at: int, key: string)
    requires 0 <= at <= |json| && Lacks(json, key)
    ensures Lacks(json[at..], key)
  {
    var p := "\"" + key + "\":";
    forall q | OccursAt(json[at..], p, q) ensures false {
      assert json[at..][q..] == json[at + q..];
      assert OccursAt(json, p, at + q);
    }
  }

  lemma NothingToScan(json: string, key: string)
    requires Lacks(json, key) && |key| <= 60
    ensures IntAt(json, key) == None && DecimalAt(json, key) == None
  {
    hide Find;
    assert SearchKey(key) == "\"" + key + "\":";
    FindsWhatOccurs(json, SearchKey(key));
  }

  lemma KeysAreShort()
    ensures |"mounted"| <= 60 && |"used_gb"| <= 60 && |"total_gb"| <= 60 && |"percent_used"| <= 60
    ensures |"cpu_temp_celsius"| <= 60 && |"memory_used_gb"| <= 60
    ensures |"memory_total_gb"| <= 60 && |"memory_percent_used"| <= 60
  {}

  /** A disk keeps what the text has no key for; only whether it is mounted has a value of its own then. */
  lemma DiskKeeps(json: string, d: DiskReading, unmounted: int)
    ensures var t := DiskAt(json, d, unmounted);
            && (Lacks(json, "mounted") ==> t.mounted == unmounted)
            && (Lacks(json, "used_gb") ==> t.usedGb == d.usedGb)
            && (Lacks(json, "total_gb") ==> t.totalGb == d.totalGb)
            && (Lacks(json, "percent_used") ==> t.percentUsed == d.percentUsed)
  {
    hide Lacks, IntAt, DecimalAt;
    KeysAreShort();
    if Lacks(json, "mounted") { NothingToScan(json, "mounted"); }
    if Lacks(json, "used_gb") { NothingToScan(json, "used_gb"); }
    if Lacks(json, "total_gb") { NothingToScan(json, "total_gb"); }
    if Lacks(json, "percent_used") { NothingToScan(json, "percent_used"); }
  }

  lemma SystemKeeps(json: string, f: Fields)
    ensures var t := SystemAt(json, f);
            && (Lacks(json, "cpu_temp_celsius") ==> t.cpuTemp == f.cpuTemp)
            && (Lacks(json, "memory_used_gb") ==> t.memoryUsed == f.memoryUsed)
            && (Lacks(json, "memory_total_gb") ==> t.memoryTotal == f.memoryTotal)
            && (Lacks(json, "memory_percent_used") ==> t.memoryPercent == f.memoryPercent)
            && t.ssd1 == f.ssd1 && t.ssd2 == f.ssd2
  {
    hide Lacks, DecimalAt;
    KeysAreShort();
    if Lacks(json, "cpu_temp_celsius") { NothingToScan(json, "cpu_temp_celsius"); }
    if Lacks(json, "memory_used_gb") { NothingToScan(json, "memory_used_gb"); }
    if Lacks(json, "memory_total_gb") { NothingToScan(json, "memory_total_gb"); }
    if Lacks(json, "memory_percent_used") { NothingToScan(json, "memory_percent_used"); }
  }

  /** A key missing from the section that starts at another is missing from where that section starts. */
  lemma SectionLacks(json: string, name: string, key: string)
    requires Section(json, name).Some? && Lacks(json, key)
    ensures Lacks(Section(json, name).value, key)
  {
    hide Find, Lacks;
    LackedInTheRest(json, Find(json, "\"" + name + "\":"), key);
  }

  lemma NoSection(json: string, name: string)
    ensures Section(json, name).None? <==> Lacks(json, name)
  {
    hide Find;
    FindsWhatOccurs(json, "\"" + name + "\":");
  }

  /** A message without a key leaves every field read from that key as it was, except that the first disk then
      counts as not mounted; one without a section leaves the fields of that section. */
  lemma DisksKeep(f: Fields, json: string)
    ensures var t := DisksUpdated(f, json);
            && (Lacks(json, "mounted") ==> t.ssd1.mounted == 0 && t.ssd2.mounted == f.ssd2.mounted)
            && (Lacks(json, "used_gb") ==> t.ssd1.usedGb == f.ssd1.usedGb && t.ssd2.usedGb == f.ssd2.usedGb)
            && (Lacks(json, "total_gb") ==> t.ssd1.totalGb == f.ssd1.totalGb && t.ssd2.totalGb == f.ssd2.totalGb)
            && (Lacks(json, "percent_used") ==>
                  t.ssd1.percentUsed == f.ssd1.percentUsed && t.ssd2.percentUsed == f.ssd2.percentUsed)
            && (Lacks(json, "ssd2") ==> t.ssd2 == f.ssd2)
            && f == t.(ssd1 := f.ssd1, ssd2 := f.ssd2)
  {
    hide Lacks, DiskAt, Section;
    NoSection(json, "ssd2");
    DiskKeeps(json, f.ssd1, 0);
    match Section(json, "ssd2")
    case None =>
    case Some(t) =>
      DiskKeeps(t, f.ssd2, f.ssd2.mounted);
      if Lacks(json, "mounted") { SectionLacks(json, "ssd2", "mounted"); }
      if Lacks(json, "used_gb") { SectionLacks(json, "ssd2", "used_gb"); }
      if Lacks(json, "total_gb") { SectionLacks(json, "ssd2", "total_gb"); }
      if Lacks(json, "percent_used") { SectionLacks(json, "ssd2", "percent_used"); }
  }

  /** A message without a key leaves every field read from that key as it was, except that the first disk then
      counts as not mounted; one without a section leaves the fields of that section. */
  lemma AbsentKeysKeepTheirFields(f: Fields, json: string, now: int)
    requires IsStatusMessage(Some(json))
    ensures var t := Updated(f, Some(json), now);
            && (Lacks(json, "mounted") ==> t.ssd1.mounted == 0 && t.ssd2.mounted == f.ssd2.mounted)
            && (Lacks(json, "used_gb") ==> t.ssd1.usedGb == f.ssd1.usedGb && t.ssd2.usedGb == f.ssd2.usedGb)
            && (Lacks(json, "total_gb") ==> t.ssd1.totalGb == f.ssd1.totalGb && t.ssd2.totalGb == f.ssd2.totalGb)
            && (Lacks(json, "percent_used") ==>
                  t.ssd1.percentUsed == f.ssd1.percentUsed && t.ssd2.percentUsed == f.ssd2.percentUsed)
            && (Lacks(json, "ssd2") ==> t.ssd2 == f.ssd2)
            && (Lacks(json, "cpu_temp_celsius") || Lacks(json, "system") ==> t.cpuTemp == f.cpuTemp)
            && (Lacks(json, "memory_used_gb") || Lacks(json, "system") ==> t.memoryUsed == f.memoryUsed)
            && (Lacks(json, "memory_total_gb") || Lacks(json, "system") ==> t.memoryTotal == f.memoryTotal)
            && (Lacks(json, "memory_percent_used") || Lacks(json, "system") ==> t.memoryPercent == f.memoryPercent)
  {
    hide Lacks, DisksUpdated, SystemAt, Section, IsStatusMessage;
    DisksKeep(f, json);
    NoSection(json, "system");
    var d := DisksUpdated(f, json);
    match Section(json, "system")
    case None =>
    case Some(t) =>
      SystemKeeps(t, d);
      if Lacks(json, "cpu_temp_celsius") { SectionLacks(json, "system", "cpu_temp_celsius"); }
      if Lacks(json, "memory_used_gb") { SectionLacks(json, "system", "memory_used_gb"); }
      if Lacks(json, "memory_total_gb") { SectionLacks(json, "system", "memory_total_gb"); }
      if Lacks(json, "memory_percent_used") { SectionLacks(json, "system", "memory_percent_used"); }
  }

  // ---------------------------------------------------------------- any text with a key

  /** What is searched for is the quoted key and its colon, cut to 63 characters. */
  lemma LongKeysAreCut(key: string)
    ensures SearchKey(key) <= "\"" + key + "\":" && |SearchKey(key)| == Min(|key| + 3, 63)
  {}

  predicate IsWhite(s: string) {
    forall k :: 0 <= k < |s| ==> s[k] in [' ', '\t', '\n', '\r', 11 as char, 12 as char]
  }

  lemma {:induction false} SpaceIsSkipped(white: string, s: string)
    requires IsWhite(white)
    ensures SkipSpace(white + s) == SkipSpace(s)
  {
    if white == "" {
      assert white + s == s;
    } else {
      SpaceIsSkipped(white[1..], s);
      assert (white + s)[1..] == white[1..] + s;
    }
  }

  lemma {:induction false} BlanksAreSpace(s: string)
    ensures SkipSpace(SkipBlanks(s)) == SkipSpace(s)
  {
    if s != [] && (s[0] == ' ' || s[0] == '\t') {
      BlanksAreSpace(s[1..]);
    }
  }

  /** A number is read from behind the first quoted key and its colon, whatever white space there is between. */
  lemma NumberIsReadBehindItsKey(lead: string, key: string, white: string, text: string)
    requires |key| <= 60 && IsWhite(white)
    requires var json := lead + "\"" + key + "\":" + white + text;
             forall q :: 0 <= q < |lead| ==> !OccursAt(json, "\"" + key + "\":", q)
    ensures var json := lead + "\"" + key + "\":" + white + text;
            IntAt(json, key) == ScanInt(text) && DecimalAt(json, key) == ScanDecimal(text)
  {
    hide Find, SkipBlanks, SkipSpace, ScanInt, ScanDecimal;
    var p, json := "\"" + key + "\":", lead + "\"" + key + "\":" + white + text;
    assert SearchKey(key) == p;
    assert json == lead + p + (white + text);
    KeyStandsAt(lead, p, white + text);
    SpaceIsSkipped(white, text);
    BlanksAreSpace(white + text);
    SameScan(SkipBlanks(white + text), text);
  }

  lemma KeyStandsAt(lead: string, p: string, rest: string)
    requires forall q :: 0 <= q < |lead| ==> !OccursAt(lead + p + rest, p, q)
    ensures Find(lead + p + rest, p) == |lead| && (lead + p + rest)[|lead| + |p|..] == rest
  {
    hide Find;
    var h := lead + p + rest;
    assert h[|lead|..] == p + rest;
    assert OccursAt(h, p, |lead|);
    assert OccursAt(h, p, Find(h, p));
  }

  lemma SameScan(s: string, t: string)
    requires SkipSpace(s) == SkipSpace(t)
    ensures ScanInt(s) == ScanInt(t) && ScanDecimal(s) == ScanDecimal(t)
  {}

  /** A plus sign changes nothing. */
  lemma PlusIsIgnored(n: nat, rest: string)
    requires NotDigitFirst(rest)
    ensures ScanInt("+" + Digits(n) + rest) == Some(n)
  {
    hide LeadingDigits, ValueOf, Digits;
    var d, t := Digits(n), "+" + Digits(n) + rest;
    LeadingDigitsOf(d, rest);
    DigitsRoundTrip(n);
    assert t[0] == '+' && t[1..] == d + rest;
  }

  /** Text that begins with no digit, sign, point or white space is no number. */
  lemma WordsAreNotNumbers(text: string)
    requires text == "" || (!IsWhite([text[0]]) && text[0] !in ['+', '-', '.'] && !('0' <= text[0] <= '9'))
    ensures ScanInt(text) == None && ScanDecimal(text) == None
  {
    if text != "" {
      assert [text[0]][0] == text[0];
    }
  }
}
