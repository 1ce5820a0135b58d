/** The status message `create_status_message` prints (Sag/src/aquila_system_monitor.c) and the
    extractor that reads it back (Sag/src/aquila_status.c). Numbers are decimals at the precision
    printed. */
module StatusJson {
  import opened Common

  // ---------------------------------------------------------------- printing

  /** mantissa / 10^scale. */
  datatype Decimal = Decimal(mantissa: int, scale: nat)

  function Digit(n: int): char
    requires 0 <= n < 10
  {
    "0123456789"[n]
  }

  function Digits(n: nat): (s: string)
    ensures s != [] && forall k :: 0 <= k < |s| ==> IsDigit(s[k])
  {
    if n < 10 then [Digit(n)] else Digits(n / 10) + [Digit(n % 10)]
  }

  predicate IsDigit(c: char) {
    '0' <= c <= '9'
  }

  function Magnitude(n: int): nat {
    if n < 0 then -n else n
  }

  function SignOf(n: int): string {
    if n < 0 then "-" else ""
  }

  /** %d and %ld. */
  function PrintInt(n: int): string {
    SignOf(n) + Digits(Magnitude(n))
  }

  /** %.1f of n / 10. */
  function PrintTenths(n: int): string {
    SignOf(n) + Digits(Magnitude(n) / 10) + "." + [Digit(Magnitude(n) % 10)]
  }

  /** %.2f of n / 100. */
  function PrintHundredths(n: int): string {
    SignOf(n) + Digits(Magnitude(n) / 100) + "." + [Digit(Magnitude(n) / 10 % 10), Digit(Magnitude(n) % 10)]
  }

  /** A disk: gigabytes in hundredths, per cent in tenths. */
  datatype Disk = Disk(mounted: int, usedGb: int, totalGb: int, percentUsed: int)

  /** `system_status_t` at the precision printed. */
  datatype Status = Status(timestamp: int, ssd1: Disk, ssd2: Disk,
                           cpuTemp: int, memoryUsed: int, memoryTotal: int, memoryPercent: int)

  /** A quoted word of the message and the text up to the next quote. */
  datatype Segment = Segment(word: string, after: string)

  function Quoted(g: Segment): string {
    "\"" + g.word + "\"" + g.after
  }

  function Render(segments: seq<Segment>): string {
    if segments == [] then "" else Quoted(segments[0]) + Render(segments[1..])
  }

  function DiskSegments(name: string, d: Disk): seq<Segment> {
    [Segment(name, ":{"),
     Segment("mounted", ":" + PrintInt(d.mounted) + ","),
     Segment("used_gb", ":" + PrintHundredths(d.usedGb) + ","),
     Segment("total_gb", ":" + PrintHundredths(d.totalGb) + ","),
     Segment("percent_used", ":" + PrintTenths(d.percentUsed) + "},")]
  }

  function HeadSegments(s: Status): seq<Segment> {
    [Segment("type", ":"), Segment("aquila_system_status", ","),
     Segment("timestamp", ":" + PrintInt(s.timestamp) + ",")]
  }

  function SystemSegments(s: Status): seq<Segment> {
    [Segment("system", ":{"),
     Segment("cpu_temp_celsius", ":" + PrintTenths(s.cpuTemp) + ","),
     Segment("memory_used_gb", ":" + PrintHundredths(s.memoryUsed) + ","),
     Segment("memory_total_gb", ":" + PrintHundredths(s.memoryTotal) + ","),
     Segment("memory_percent_used", ":" + PrintTenths(s.memoryPercent) + "}}\n")]
  }

  function Segments(s: Status): seq<Segment> {
    HeadSegments(s) + DiskSegments("ssd1", s.ssd1) + DiskSegments("ssd2", s.ssd2) + SystemSegments(s)
  }

  /** The format string of `create_status_message` with its values, cut at the quotes. */
  function CreateStatusMessage(s: Status): string {
    "{" + Render(Segments(s))
  }

  // ---------------------------------------------------------------- scanning

  /** `strstr`: the first index at which `p` occurs in `h`, -1 if it does not. */
  function Find(h: string, p: string): (k: int)
    ensures IsFirst(h, p, k)
  {
    if p <= h then 0
    else if h == [] then -1
    else
      var k := Find(h[1..], p);
      FirstInTail(h, p, k);
      if k < 0 then -1 else k + 1
  }

  predicate IsFirst(h: string, p: string, k: int) {
    && -1 <= k <= |h| && (k >= 0 ==> p <= h[k..])
    && forall q :: 0 <= q <= |h| && p <= h[q..] ==> 0 <= k <= q
  }

  /** What is first in the tail is first in the whole, one further on. */
  lemma FirstInTail(h: string, p: string, k: int)
    requires h != [] && !(p <= h) && IsFirst(h[1..], p, k)
    ensures IsFirst(h, p, if k < 0 then -1 else k + 1)
  {
    if k >= 0 {
      assert h[k + 1..] == h[1..][k..];
    }
    forall q | 0 <= q <= |h| && p <= h[q..] ensures 0 <= k && k + 1 <= q {
      assert h[0..] == h;
      assert q > 0 && h[q..] == h[1..][q - 1..];
    }
  }

  /** The leading digits of `s`. */
  function LeadingDigits(s: string): (d: string)
    ensures d <= s
  {
    if s == [] || !IsDigit(s[0]) then "" else [s[0]] + LeadingDigits(s[1..])
  }

  function DigitValue(c: char): int {
    c as int - '0' as int
  }

  function ValueOf(digits: string): int {
    if digits == [] then 0 else 10 * ValueOf(digits[..|digits| - 1]) + DigitValue(digits[|digits| - 1])
  }

  function SkipBlanks(s: string): string {
    if s != [] && (s[0] == ' ' || s[0] == '\t') then SkipBlanks(s[1..]) else s
  }

  function IsNegative(s: string): bool {
    s != [] && s[0] == '-'
  }

  function AfterSign(s: string): string {
    if s != [] && (s[0] == '-' || s[0] == '+') then s[1..] else s
  }

  function Signed(s: string, n: int): int {
    if IsNegative(s) then -n else n
  }

  /** `isspace`: a space, or one of the five control characters from tab to carriage return. */
  predicate IsSpace(c: char) {
    c == ' ' || 9 <= c as int <= 13
  }

  function SkipSpace(s: string): string {
    if s != [] && IsSpace(s[0]) then SkipSpace(s[1..]) else s
  }

  /** `sscanf` with %d. */
  function ScanInt(s: string): Option<int> {
    var t := SkipSpace(s);
    var d := LeadingDigits(AfterSign(t));
    if d == "" then None else Some(Signed(t, ValueOf(d)))
  }

  /** `sscanf` with %f, on numbers without an exponent. */
  function ScanDecimal(s: string): Option<Decimal> {
    var t := SkipSpace(s);
    var number := AfterSign(t);
    var whole := LeadingDigits(number);
    var rest := number[|whole|..];
    var fraction := if rest != [] && rest[0] == '.' then LeadingDigits(rest[1..]) else "";
    if whole + fraction == "" then None else Some(Decimal(Signed(t, ValueOf(whole + fraction)), |fraction|))
  }

  // ---------------------------------------------------------------- extraction

  const SEARCH_KEY_SIZE := 64

  /** The quoted key and its colon, as far as they fit the 64-byte buffer. */
  function SearchKey(key: string): string {
    var k := "\"" + key + "\":";
    if |k| < SEARCH_KEY_SIZE then k else k[..SEARCH_KEY_SIZE - 1]
  }

  /** The text a key's value is scanned from. */
  function ValueText(json: string, key: string): Option<string> {
    var pos := Find(json, SearchKey(key));
    if pos < 0 then None else Some(SkipBlanks(json[pos + |SearchKey(key)|..]))
  }

  function IntAt(json: string, key: string): Option<int> {
    match ValueText(json, key)
    case None => None
    case Some(t) => ScanInt(t)
  }

  function DecimalAt(json: string, key: string): Option<Decimal> {
    match ValueText(json, key)
    case None => None
    case Some(t) => ScanDecimal(t)
  }

  /** A field is left as it was when its key is missing or its value does not scan. */
  function Or<T>(value: Option<T>, was: T): T {
    match value
    case None => was
    case Some(v) => v
  }

  datatype DiskReading = DiskReading(mounted: int, usedGb: Decimal, totalGb: Decimal, percentUsed: Decimal)

  /** `aquila_status_t`. */
  datatype Fields = Fields(lastUpdate: int, dataValid: bool, ssd1: DiskReading, ssd2: DiskReading,
                           cpuTemp: Decimal, memoryUsed: Decimal, memoryTotal: Decimal, memoryPercent: Decimal)

  function DiskAt(json: string, d: DiskReading, unmounted: int): DiskReading {
    DiskReading(Or(IntAt(json, "mounted"), unmounted), Or(DecimalAt(json, "used_gb"), d.usedGb),
                Or(DecimalAt(json, "total_gb"), d.totalGb), Or(DecimalAt(json, "percent_used"), d.percentUsed))
  }

  function SystemAt(json: string, f: Fields): Fields {
    f.(cpuTemp := Or(DecimalAt(json, "cpu_temp_celsius"), f.cpuTemp),
       memoryUsed := Or(DecimalAt(json, "memory_used_gb"), f.memoryUsed),
       memoryTotal := Or(DecimalAt(json, "memory_total_gb"), f.memoryTotal),
       memoryPercent := Or(DecimalAt(json, "memory_percent_used"), f.memoryPercent))
  }

  function Section(json: string, name: string): Option<string> {
    var pos := Find(json, "\"" + name + "\":");
    if pos < 0 then None else Some(json[pos..])
  }

  predicate IsStatusMessage(json: Option<string>) {
    json.Some? && |json.value| >= 10 && Find(json.value, "aquila_system_status") >= 0
  }

  function DisksUpdated(f: Fields, json: string): Fields {
    var a := f.(ssd1 := DiskAt(json, f.ssd1, 0));
    match Section(json, "ssd2")
    case None => a
    case Some(t) => a.(ssd2 := DiskAt(t, f.ssd2, f.ssd2.mounted))
  }

  function SystemUpdated(f: Fields, json: string): Fields {
    match Section(json, "system")
    case None => f
    case Some(t) => SystemAt(t, f)
  }

  /** The fields after a status message; anything else is refused and changes nothing. */
  function Updated(f: Fields, json: Option<string>, now: int): Fields {
    if !IsStatusMessage(json) then f
    else SystemUpdated(DisksUpdated(f, json.value), json.value).(lastUpdate := now, dataValid := true)
  }

  /** `global_aquila_status`. */
  class StatusStore {
    var fields: Fields

    /** Where the value of `key` begins, after its blanks. */
    static method SeekValue(json: string, key: string) returns (found: bool, pos: int)
      ensures found <==> ValueText(json, key).Some?
      ensures found ==> 0 <= pos <= |json| && json[pos..] == ValueText(json, key).value
    {
      hide Find, SearchKey, SkipBlanks;
      pos := Find(json, SearchKey(key));
      if pos < 0 {
        return false, 0;
      }
      found := true;
      pos := SkipBlanksFrom(json, pos + |SearchKey(key)|);
    }

    static method SkipBlanksFrom(json: string, start: int) returns (pos: int)
      requires 0 <= start <= |json|
      ensures 0 <= pos <= |json| && json[pos..] == SkipBlanks(json[start..])
    {
      pos := start;
      while pos < |json| && (json[pos] == ' ' || json[pos] == '\t')
        invariant start <= pos <= |json|
        invariant SkipBlanks(json[pos..]) == SkipBlanks(json[start..])
      {
        assert json[pos..][1..] == json[pos + 1..];
        pos := pos + 1;
      }
    }

    static method ExtractJsonNumber(json: string, key: string, was: Decimal) returns (ok: int, value: Decimal)
      ensures value == Or(DecimalAt(json, key), was)
      ensures ok == if DecimalAt(json, key).Some? then 1 else 0
    {
      var found, pos := SeekValue(json, key);
      if found {
        var v := ScanDecimal(json[pos..]);
        if v.Some? {
          return 1, v.value;
        }
      }
      return 0, was;
    }

    static method ExtractJsonInt(json: string, key: string, was: int) returns (ok: int, value: int)
      ensures value == Or(IntAt(json, key), was)
      ensures ok == if IntAt(json, key).Some? then 1 else 0
    {
      var found, pos := SeekValue(json, key);
      if found {
        var v := ScanInt(json[pos..]);
        if v.Some? {
          return 1, v.value;
        }
      }
      return 0, was;
    }

    static method ExtractDisk(json: string, d: DiskReading, unmounted: int) returns (r: DiskReading)
      ensures r == DiskAt(json, d, unmounted)
    {
      var _, mounted := ExtractJsonInt(json, "mounted", unmounted);
      var _, usedGb := ExtractJsonNumber(json, "used_gb", d.usedGb);
      var _, totalGb := ExtractJsonNumber(json, "total_gb", d.totalGb);
      var _, percentUsed := ExtractJsonNumber(json, "percent_used", d.percentUsed);
      r := DiskReading(mounted, usedGb, totalGb, percentUsed);
    }

    method UpdateDisks(json: string)
      modifies this
      ensures fields == DisksUpdated(old(fields), json)
    {
      hide DiskAt, Find;
      var ssd1 := ExtractDisk(json, fields.ssd1, 0);
      fields := fields.(ssd1 := ssd1);
      var ssd2Section := Find(json, "\"ssd2\":");
      if ssd2Section >= 0 {
        var ssd2 := ExtractDisk(json[ssd2Section..], fields.ssd2, fields.ssd2.mounted);
        fields := fields.(ssd2 := ssd2);
      }
    }

    method UpdateSystem(json: string)
      modifies this
      ensures fields == SystemUpdated(old(fields), json)
    {
      hide DecimalAt, Find;
      var systemSection := Find(json, "\"system\":");
      if systemSection >= 0 {
        var text := json[systemSection..];
        var _, cpu := ExtractJsonNumber(text, "cpu_temp_celsius", fields.cpuTemp);
        var _, used := ExtractJsonNumber(text, "memory_used_gb", fields.memoryUsed);
        var _, total := ExtractJsonNumber(text, "memory_total_gb", fields.memoryTotal);
        var _, percent := ExtractJsonNumber(text, "memory_percent_used", fields.memoryPercent);
        fields := fields.(cpuTemp := cpu, memoryUsed := used, memoryTotal := total, memoryPercent := percent);
      }
    }

    method UpdateFromJson(json: Option<string>, now: int) returns (ret: int)
      modifies this
      ensures ret == if IsStatusMessage(json) then 0 else -1
      ensures fields == Updated(old(fields), json, now)
    {
      hide DisksUpdated, SystemUpdated, Find;
      if json.None? || |json.value| < 10 {
        return -1;
      }
      if Find(json.value, "aquila_system_status") < 0 {
        return -1;
      }
      UpdateDisks(json.value);
      UpdateSystem(json.value);
      fields := fields.(lastUpdate := now, dataValid := true);
      return 0;
    }
  }
}
