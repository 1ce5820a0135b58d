/** Extracting from a printed status message recovers every value printed. */
module StatusJsonLaws {
  import opened Common
  import opened StatusJson

  // ---------------------------------------------------------------- numbers

  lemma DigitRoundTrip(n: int)
    requires 0 <= n < 10
    ensures IsDigit(Digit(n)) && DigitValue(Digit(n)) == n
  {
    assert n in {0, 1, 2, 3, 4, 5, 6, 7, 8, 9};
  }

  lemma {:induction false} DigitsRoundTrip(n: nat)
    ensures ValueOf(Digits(n)) == n
  {
    DigitRoundTrip(n % 10);
    if n < 10 {
      assert Digits(n)[..0] == "";
    } else {
      DigitsRoundTrip(n / 10);
      assert Digits(n)[..|Digits(n)| - 1] == Digits(n / 10);
    }
  }

  predicate NotDigitFirst(s: string) {
    s == "" || !IsDigit(s[0])
  }

  /** Scanning digits stops where they end. */
  lemma {:induction false} LeadingDigitsOf(d: string, rest: string)
    requires forall k :: 0 <= k < |d| ==> IsDigit(d[k])
    requires NotDigitFirst(rest)
    ensures LeadingDigits(d + rest) == d
  {
    if d == "" {
      assert d + rest == rest;
    } else {
      LeadingDigitsOf(d[1..], rest);
      assert (d + rest)[1..] == d[1..] + rest;
    }
  }

  lemma ValueOfOneMore(d: string, c: char)
    ensures ValueOf(d + [c]) == 10 * ValueOf(d) + DigitValue(c)
  {
    assert (d + [c])[..|d|] == d;
  }

  /** The sign printed is the sign scanned, and the digits follow it. */
  lemma SignRoundTrip(n: int, body: string)
    requires body != "" && IsDigit(body[0])
    ensures AfterSign(SignOf(n) + body) == body
    ensures Signed(SignOf(n) + body, Magnitude(n)) == n
    ensures SkipBlanks(SignOf(n) + body) == SignOf(n) + body
    ensures SkipSpace(SignOf(n) + body) == SignOf(n) + body
  {
    if n < 0 {
      assert ("-" + body)[1..] == body;
    } else {
      assert "" + body == body;
    }
  }

  lemma IntRoundTrip(n: int, rest: string)
    requires NotDigitFirst(rest)
    ensures SkipBlanks(PrintInt(n) + rest) == PrintInt(n) + rest
    ensures ScanInt(PrintInt(n) + rest) == Some(n)
  {
    hide LeadingDigits, ValueOf, SignOf, AfterSign, Signed, SkipBlanks, SkipSpace, Magnitude;
    var d := Digits(Magnitude(n));
    SignRoundTrip(n, d + rest);
    assert SignOf(n) + (d + rest) == PrintInt(n) + rest;
    LeadingDigitsOf(d, rest);
    DigitsRoundTrip(Magnitude(n));
  }

  /** Scanning a sign, digits, a point and digits. */
  lemma DecimalRoundTrip(n: int, whole: string, fraction: string, rest: string)
    requires whole != "" && NotDigitFirst(rest)
    requires forall k :: 0 <= k < |whole| ==> IsDigit(whole[k])
    requires forall k :: 0 <= k < |fraction| ==> IsDigit(fraction[k])
    requires ValueOf(whole + fraction) == Magnitude(n)
    ensures var text := SignOf(n) + whole + "." + fraction + rest;
            && SkipBlanks(text) == text
            && ScanDecimal(text) == Some(Decimal(n, |fraction|))
  {
    hide LeadingDigits, ValueOf, SignOf, AfterSign, Signed, SkipBlanks, SkipSpace, IsDigit, Magnitude;
    var tail := "." + fraction + rest;
    PointIsNotADigit(fraction + rest);
    Nested(SignOf(n), whole, ".", fraction, rest);
    assert "." + (fraction + rest) == tail;
    SignRoundTrip(n, whole + tail);
    LeadingDigitsOf(whole, tail);
    assert (whole + tail)[|whole|..] == tail;
    assert tail[1..] == fraction + rest;
    LeadingDigitsOf(fraction, rest);
  }

  lemma PointIsNotADigit(s: string)
    ensures NotDigitFirst("." + s)
  {}

  lemma Nested(a: string, b: string, c: string, d: string, e: string)
    ensures a + b + c + d + e == a + (b + (c + (d + e)))
  {}

  lemma TenthsRoundTrip(n: int, rest: string)
    requires NotDigitFirst(rest)
    ensures SkipBlanks(PrintTenths(n) + rest) == PrintTenths(n) + rest
    ensures ScanDecimal(PrintTenths(n) + rest) == Some(Decimal(n, 1))
  {
    var m := Magnitude(n);
    DigitsRoundTrip(m / 10);
    DigitRoundTrip(m % 10);
    ValueOfOneMore(Digits(m / 10), Digit(m % 10));
    DecimalRoundTrip(n, Digits(m / 10), [Digit(m % 10)], rest);
  }

  lemma HundredthsRoundTrip(n: int, rest: string)
    requires NotDigitFirst(rest)
    ensures SkipBlanks(PrintHundredths(n) + rest) == PrintHundredths(n) + rest
    ensures ScanDecimal(PrintHundredths(n) + rest) == Some(Decimal(n, 2))
  {
    var m := Magnitude(n);
    DigitRoundTrip(m / 10 % 10);
    DigitRoundTrip(m % 10);
    HundredthsValue(m);
    hide ScanDecimal, SkipBlanks, ValueOf, Digits, Digit, SignOf, Magnitude;
    DecimalRoundTrip(n, Digits(m / 100), [Digit(m / 10 % 10), Digit(m % 10)], rest);
  }

  lemma HundredthsValue(m: nat)
    ensures ValueOf(Digits(m / 100) + [Digit(m / 10 % 10), Digit(m % 10)]) == m
  {
    var whole, c, d := Digits(m / 100), Digit(m / 10 % 10), Digit(m % 10);
    DigitsRoundTrip(m / 100);
    DigitRoundTrip(m / 10 % 10);
    DigitRoundTrip(m % 10);
    hide ValueOf, Digits, Digit;
    ValueOfOneMore(whole, c);
    ValueOfOneMore(whole + [c], d);
    assert whole + [c] + [d] == whole + [c, d];
    assert m / 100 == m / 10 / 10;
  }

  // ---------------------------------------------------------------- first occurrences

  /** A segment as the printer makes them: no stray quotes, and punctuation after the word. */
  predicate Clean(g: Segment) {
    && '\"' !in g.word && '\"' !in g.after
    && g.after != "" && (g.after[0] == ':' || g.after[0] == ',')
  }

  predicate IsKey(key: string) {
    '\"' !in key && key != "" && key[0] != ':' && key[0] != ',' && |key| + 3 < SEARCH_KEY_SIZE
  }

  predicate IsKeySegment(g: Segment, key: string) {
    g.word == key && g.after != "" && g.after[0] == ':'
  }

  lemma SearchKeyIs(key: string)
    requires IsKey(key)
    ensures SearchKey(key) == "\"" + key + "\":"
  {}

  /** A search passes over positions where the pattern does not stand. */
  lemma {:induction false} PassOver(h: string, n: int, p: string)
    requires 0 <= n <= |h| && p != ""
    requires forall q :: 0 <= q < n ==> !(p <= h[q..])
    ensures Find(h, p) == if Find(h[n..], p) < 0 then -1 else n + Find(h[n..], p)
  {
    if n == 0 {
      assert h[0..] == h;
    } else {
      assert h[0..] == h;
      assert !(p <= h);
      forall q | 0 <= q < n - 1 ensures !(p <= h[1..][q..]) {
        assert h[1..][q..] == h[q + 1..];
      }
      PassOver(h[1..], n - 1, p);
      assert h[1..][n - 1..] == h[n..];
    }
  }

  /** The quoted key does not stand anywhere in a clean segment that is not its own. */
  lemma NoKeyInSegment(g: Segment, rest: string, key: string, q: int)
    requires Clean(g) && IsKey(key) && !IsKeySegment(g, key)
    requires 0 <= q < |Quoted(g)|
    ensures !(SearchKey(key) <= (Quoted(g) + rest)[q..])
  {
    SearchKeyIs(key);
    var h, p, w := Quoted(g) + rest, SearchKey(key), |g.word|;
    SegmentCells(g, rest);
    if h[q] != '\"' {
      Mismatch(h, p, q, 0);
    } else if q > 0 {
      Mismatch(h, p, q, 1);
    } else if w < |key| {
      Mismatch(h, p, 0, w + 1);
    } else if |key| < w {
      Mismatch(h, p, 0, |key| + 1);
    } else if g.word != key {
      var i :| 0 <= i < w && g.word[i] != key[i];
      Mismatch(h, p, 0, i + 1);
    } else {
      Mismatch(h, p, 0, w + 2);
    }
  }

  lemma SegmentCells(g: Segment, rest: string)
    requires Clean(g)
    ensures var h, w := Quoted(g) + rest, |g.word|;
            && h[0] == '\"' && h[w + 1] == '\"' && h[w + 2] == g.after[0]
            && (forall k :: 1 <= k <= w ==> h[k] == g.word[k - 1] && h[k] != '\"')
            && (forall k :: w + 2 <= k < |Quoted(g)| ==> h[k] != '\"')
  {
    var h, w := Quoted(g) + rest, |g.word|;
    forall k | 1 <= k <= w ensures h[k] == g.word[k - 1] && h[k] != '\"' {
      assert g.word[k - 1] in g.word;
    }
    forall k | w + 2 <= k < |Quoted(g)| ensures h[k] != '\"' {
      assert h[k] == g.after[k - w - 2] && g.after[k - w - 2] in g.after;
    }
  }

  lemma Mismatch(h: string, p: string, q: int, k: int)
    requires 0 <= q <= |h| && 0 <= k < |p|
    requires q + k < |h| ==> h[q + k] != p[k]
    ensures !(p <= h[q..])
  {
    assert q + k < |h| ==> h[q..][k] == h[q + k];
  }

  ghost predicate AllClean(segments: seq<Segment>) {
    forall k :: 0 <= k < |segments| ==> Clean(segments[k])
  }

  /** The first `p` of `h` is where `at` begins, and `behind` follows it. */
  predicate Stands(h: string, p: string, at: string, behind: string) {
    var f := Find(h, p);
    0 <= f && f + |p| <= |h| && h[f..] == at && h[f + |p|..] == behind
  }

  /** A key is found at the first segment of its own: there, the text of its value follows. */
  lemma {:induction false} KeyIsFound(segments: seq<Segment>, i: int, key: string)
    requires 0 <= i < |segments| && AllClean(segments) && IsKey(key)
    requires IsKeySegment(segments[i], key)
    requires forall k :: 0 <= k < i ==> !IsKeySegment(segments[k], key)
    ensures segments[i].after != ""
    ensures Stands(Render(segments), SearchKey(key), Render(segments[i..]),
                   segments[i].after[1..] + Render(segments[i + 1..]))
  {
    CleanTail(segments);
    assert segments[i].after != "";
    hide Find, Stands, SearchKey, Quoted, Clean, AllClean, IsKey, IsKeySegment, Render;
    var g, p := segments[0], SearchKey(key);
    var rest := Render(segments[1..]);
    RenderUnfolds(segments);
    if i == 0 {
      KeyStarts(g, rest, key);
      assert segments[0..] == segments;
    } else {
      KeyIsFound(segments[1..], i - 1, key);
      TailsOfTail(segments, i);
      FoundPast(g, rest, key, Render(segments[i..]), segments[i].after[1..] + Render(segments[i + 1..]));
    }
  }

  lemma CleanTail(segments: seq<Segment>)
    requires segments != [] && AllClean(segments)
    ensures Clean(segments[0]) && AllClean(segments[1..])
  {}

  lemma RenderUnfolds(segments: seq<Segment>)
    requires segments != []
    ensures Render(segments) == Quoted(segments[0]) + Render(segments[1..])
  {}

  lemma TailsOfTail(segments: seq<Segment>, i: int)
    requires 1 <= i < |segments|
    ensures segments[1..][i - 1..] == segments[i..] && segments[1..][i..] == segments[i + 1..]
  {}

  /** What is found in the rest is found past the segment. */
  lemma FoundPast(g: Segment, rest: string, key: string, at: string, behind: string)
    requires Clean(g) && IsKey(key) && !IsKeySegment(g, key)
    requires Stands(rest, SearchKey(key), at, behind)
    ensures Stands(Quoted(g) + rest, SearchKey(key), at, behind)
  {
    hide Find, SearchKey, Quoted, Clean, IsKeySegment, IsKey;
    StepPast(g, rest, key);
    var f, p := Find(rest, SearchKey(key)), SearchKey(key);
    Suffixes(Quoted(g), rest, f, f + |p|);
  }

  /** A search goes past a segment that is not the key's. */
  lemma StepPast(g: Segment, rest: string, key: string)
    requires Clean(g) && IsKey(key) && !IsKeySegment(g, key)
    ensures var p := SearchKey(key);
            Find(Quoted(g) + rest, p) == if Find(rest, p) < 0 then -1 else |Quoted(g)| + Find(rest, p)
  {
    hide Find, SearchKey, Quoted, Clean, IsKeySegment;
    SearchKeyIs(key);
    var h, p := Quoted(g) + rest, SearchKey(key);
    forall q | 0 <= q < |Quoted(g)| ensures !(p <= h[q..]) {
      NoKeyInSegment(g, rest, key, q);
    }
    PassOver(h, |Quoted(g)|, p);
    assert h[|Quoted(g)|..] == rest;
  }

  lemma KeyStarts(g: Segment, rest: string, key: string)
    requires IsKey(key) && IsKeySegment(g, key)
    ensures g.after != "" && Stands(Quoted(g) + rest, SearchKey(key), Quoted(g) + rest, g.after[1..] + rest)
  {
    SearchKeyIs(key);
    var h, p := Quoted(g) + rest, SearchKey(key);
    assert g.after == ":" + g.after[1..];
    assert h == p + (g.after[1..] + rest);
    assert p <= h[0..];
  }

  lemma Suffixes(a: string, b: string, i: int, j: int)
    requires 0 <= i <= |b| && 0 <= j <= |b|
    ensures (a + b)[|a|..] == b && (a + b)[|a| + i..] == b[i..] && (a + b)[|a| + j..] == b[j..]
  {}

  // ---------------------------------------------------------------- the message

  /** The value of a key in a text that opens with `lead` and goes on in segments. */
  lemma ValueFound(lead: string, segments: seq<Segment>, i: int, key: string, value: string)
    requires '\"' !in lead
    requires 0 <= i < |segments| && AllClean(segments) && IsKey(key)
    requires segments[i].word == key && segments[i].after == ":" + value
    requires forall k :: 0 <= k < i ==> !IsKeySegment(segments[k], key)
    ensures ValueText(lead + Render(segments), key) == Some(SkipBlanks(value + Render(segments[i + 1..])))
    ensures Find(lead + Render(segments), SearchKey(key)) >= 0
    ensures (lead + Render(segments))[Find(lead + Render(segments), SearchKey(key))..] == Render(segments[i..])
  {
    assert IsKeySegment(segments[i], key);
    hide Find, SearchKey, Render, SkipBlanks, Stands, IsKey, IsKeySegment, AllClean;
    var at, behind := Render(segments[i..]), value + Render(segments[i + 1..]);
    KeyIsFound(segments, i, key);
    assert (":" + value)[1..] == value;
    FoundBehindLead(lead, Render(segments), key, at, behind);
    ValueStands(lead + Render(segments), key, at, behind);
  }

  lemma NoKeyInLead(lead: string, r: string, key: string, q: int)
    requires '\"' !in lead && IsKey(key) && 0 <= q < |lead|
    ensures !(SearchKey(key) <= (lead + r)[q..])
  {
    SearchKeyIs(key);
    assert (lead + r)[q] == lead[q] && lead[q] in lead;
    Mismatch(lead + r, SearchKey(key), q, 0);
  }

  /** A search goes past the text before the first quote. */
  lemma PastLead(lead: string, r: string, key: string)
    requires '\"' !in lead && IsKey(key)
    ensures var p := SearchKey(key); Find(lead + r, p) == if Find(r, p) < 0 then -1 else |lead| + Find(r, p)
  {
    hide Find, SearchKey, IsKey;
    SearchKeyIs(key);
    var h, p := lead + r, SearchKey(key);
    forall q | 0 <= q < |lead| ensures !(p <= h[q..]) {
      NoKeyInLead(lead, r, key, q);
    }
    PassOver(h, |lead|, p);
    assert h[|lead|..] == r;
  }

  lemma FoundBehindLead(lead: string, r: string, key: string, at: string, behind: string)
    requires '\"' !in lead && IsKey(key) && Stands(r, SearchKey(key), at, behind)
    ensures Stands(lead + r, SearchKey(key), at, behind)
  {
    hide Find, SearchKey, IsKey;
    PastLead(lead, r, key);
    var f, p := Find(r, SearchKey(key)), SearchKey(key);
    Suffixes(lead, r, f, f + |p|);
  }

  lemma ValueStands(h: string, key: string, at: string, behind: string)
    requires Stands(h, SearchKey(key), at, behind)
    ensures ValueText(h, key) == Some(SkipBlanks(behind))
    ensures Find(h, SearchKey(key)) >= 0 && h[Find(h, SearchKey(key))..] == at
  {
    hide Find, SearchKey, SkipBlanks;
  }

  lemma DigitsAreClean(d: string)
    requires forall k :: 0 <= k < |d| ==> IsDigit(d[k])
    ensures '\"' !in d
  {}

  lemma NumbersAreClean(n: int)
    ensures '\"' !in PrintInt(n) && '\"' !in PrintTenths(n) && '\"' !in PrintHundredths(n)
  {
    var m := Magnitude(n);
    DigitsAreClean(Digits(m));
    DigitsAreClean(Digits(m / 10));
    DigitsAreClean(Digits(m / 100));
    DigitRoundTrip(m % 10);
    DigitRoundTrip(m / 10 % 10);
  }

  lemma ValueIsClean(word: string, value: string, end: string)
    requires '\"' !in word && '\"' !in value && '\"' !in end
    ensures Clean(Segment(word, ":" + value + end))
  {}

  predicate IsName(name: string) {
    name == "ssd1" || name == "ssd2"
  }

  lemma DiskSegmentsAreClean(name: string, d: Disk)
    requires IsName(name)
    ensures AllClean(DiskSegments(name, d))
  {
    hide Clean, PrintInt, PrintTenths, PrintHundredths;
    NumbersAreClean(d.mounted);
    NumbersAreClean(d.usedGb);
    NumbersAreClean(d.totalGb);
    NumbersAreClean(d.percentUsed);
    ValueIsClean(name, "{", "");
    assert ":" + "{" + "" == ":{";
    ValueIsClean("mounted", PrintInt(d.mounted), ",");
    ValueIsClean("used_gb", PrintHundredths(d.usedGb), ",");
    ValueIsClean("total_gb", PrintHundredths(d.totalGb), ",");
    ValueIsClean("percent_used", PrintTenths(d.percentUsed), "},");
  }

  lemma SystemSegmentsAreClean(s: Status)
    ensures AllClean(SystemSegments(s))
  {
    hide Clean, PrintInt, PrintTenths, PrintHundredths;
    NumbersAreClean(s.cpuTemp);
    NumbersAreClean(s.memoryUsed);
    NumbersAreClean(s.memoryTotal);
    NumbersAreClean(s.memoryPercent);
    ValueIsClean("system", "{", "");
    assert ":" + "{" + "" == ":{";
    ValueIsClean("cpu_temp_celsius", PrintTenths(s.cpuTemp), ",");
    ValueIsClean("memory_used_gb", PrintHundredths(s.memoryUsed), ",");
    ValueIsClean("memory_total_gb", PrintHundredths(s.memoryTotal), ",");
    ValueIsClean("memory_percent_used", PrintTenths(s.memoryPercent), "}}\n");
  }

  lemma HeadSegmentsAreClean(s: Status)
    ensures AllClean(HeadSegments(s))
  {
    hide Clean, PrintInt;
    NumbersAreClean(s.timestamp);
    HeadWords();
    ValueIsClean("type", "", "");
    assert ":" + "" + "" == ":";
    ValueIsClean("timestamp", PrintInt(s.timestamp), ",");
    CommaIsClean("aquila_system_status");
  }

  lemma HeadWords()
    ensures '\"' !in "type" && '\"' !in "timestamp" && '\"' !in "aquila_system_status" && '\"' !in "," && '\"' !in ""
  {}

  lemma CommaIsClean(word: string)
    requires '\"' !in word
    ensures Clean(Segment(word, ","))
  {}

  /** None of a disk's four keys is a word of `segments`. */
  ghost predicate NoDiskKeys(segments: seq<Segment>) {
    forall k :: 0 <= k < |segments| ==>
      segments[k].word !in ["mounted", "used_gb", "total_gb", "percent_used"]
  }

  function Printed(d: Disk): DiskReading {
    DiskReading(d.mounted, Decimal(d.usedGb, 2), Decimal(d.totalGb, 2), Decimal(d.percentUsed, 1))
  }

  /** None of the first `i` segments is named `key`. */
  ghost predicate NotBefore(segments: seq<Segment>, i: int, key: string)
    requires 0 <= i <= |segments|
  {
    forall k :: 0 <= k < i ==> segments[k].word != key
  }

  lemma KeysAreKeys()
    ensures IsKey("mounted") && IsKey("used_gb") && IsKey("total_gb") && IsKey("percent_used")
    ensures IsKey("cpu_temp_celsius") && IsKey("memory_used_gb")
    ensures IsKey("memory_total_gb") && IsKey("memory_percent_used")
    ensures IsKey("ssd2") && IsKey("system")
    ensures EndsNumber(",") && EndsNumber("},") && EndsNumber("}}\n")
  {}

  /** What the printer puts after a number. */
  predicate EndsNumber(end: string) {
    end == "," || end == "}," || end == "}}\n"
  }

  lemma NumberEnds(end: string, more: string)
    requires EndsNumber(end)
    ensures NotDigitFirst(end + more)
  {}

  lemma TextFound(lead: string, segments: seq<Segment>, i: int, key: string, number: string, end: string)
    requires '\"' !in lead
    requires 0 <= i < |segments| && AllClean(segments) && IsKey(key)
    requires segments[i] == Segment(key, ":" + number + end)
    requires NotBefore(segments, i, key)
    ensures ValueText(lead + Render(segments), key) == Some(SkipBlanks(number + (end + Render(segments[i + 1..]))))
  {
    hide Render, SkipBlanks, ValueText, AllClean, IsKey;
    Assoc(":", number, end);
    ValueFound(lead, segments, i, key, number + end);
    Assoc(number, end, Render(segments[i + 1..]));
  }

  lemma Assoc(a: string, b: string, c: string)
    ensures a + b + c == a + (b + c)
  {}

  lemma IntFound(lead: string, segments: seq<Segment>, i: int, key: string, n: int, end: string)
    requires '\"' !in lead && EndsNumber(end)
    requires 0 <= i < |segments| && AllClean(segments) && IsKey(key)
    requires segments[i] == Segment(key, ":" + PrintInt(n) + end)
    requires NotBefore(segments, i, key)
    ensures IntAt(lead + Render(segments), key) == Some(n)
  {
    hide Render, PrintInt, ScanInt, SkipBlanks, ValueText, AllClean, IsKey, NotBefore, EndsNumber;
    var more := Render(segments[i + 1..]);
    NumberEnds(end, more);
    TextFound(lead, segments, i, key, PrintInt(n), end);
    IntRoundTrip(n, end + more);
  }

  lemma TenthsFound(lead: string, segments: seq<Segment>, i: int, key: string, n: int, end: string)
    requires '\"' !in lead && EndsNumber(end)
    requires 0 <= i < |segments| && AllClean(segments) && IsKey(key)
    requires segments[i] == Segment(key, ":" + PrintTenths(n) + end)
    requires NotBefore(segments, i, key)
    ensures DecimalAt(lead + Render(segments), key) == Some(Decimal(n, 1))
  {
    hide Render, PrintTenths, ScanDecimal, SkipBlanks, ValueText, AllClean, IsKey, NotBefore, EndsNumber;
    var more := Render(segments[i + 1..]);
    NumberEnds(end, more);
    TextFound(lead, segments, i, key, PrintTenths(n), end);
    TenthsRoundTrip(n, end + more);
  }

  lemma HundredthsFound(lead: string, segments: seq<Segment>, i: int, key: string, n: int, end: string)
    requires '\"' !in lead && EndsNumber(end)
    requires 0 <= i < |segments| && AllClean(segments) && IsKey(key)
    requires segments[i] == Segment(key, ":" + PrintHundredths(n) + end)
    requires NotBefore(segments, i, key)
    ensures DecimalAt(lead + Render(segments), key) == Some(Decimal(n, 2))
  {
    hide Render, PrintHundredths, ScanDecimal, SkipBlanks, ValueText, AllClean, IsKey, NotBefore, EndsNumber;
    var more := Render(segments[i + 1..]);
    NumberEnds(end, more);
    TextFound(lead, segments, i, key, PrintHundredths(n), end);
    HundredthsRoundTrip(n, end + more);
  }

  lemma DiskKeysInOrder(before: seq<Segment>, name: string, d: Disk, after: seq<Segment>)
    requires IsName(name) && NoDiskKeys(before)
    ensures var g, n := before + DiskSegments(name, d) + after, |before|;
            && NotBefore(g, n + 1, "mounted") && NotBefore(g, n + 2, "used_gb")
            && NotBefore(g, n + 3, "total_gb") && NotBefore(g, n + 4, "percent_used")
            && g[n + 1] == Segment("mounted", ":" + PrintInt(d.mounted) + ",")
            && g[n + 2] == Segment("used_gb", ":" + PrintHundredths(d.usedGb) + ",")
            && g[n + 3] == Segment("total_gb", ":" + PrintHundredths(d.totalGb) + ",")
            && g[n + 4] == Segment("percent_used", ":" + PrintTenths(d.percentUsed) + "},")
  {
    hide PrintInt, PrintTenths, PrintHundredths;
    var g, n := before + DiskSegments(name, d) + after, |before|;
    assert forall k :: 0 <= k < n ==> g[k] == before[k];
    assert g[n].word == name;
    assert "mounted" != "used_gb" && "mounted" != "total_gb" && "mounted" != "percent_used";
    assert "used_gb" != "total_gb" && "used_gb" != "percent_used" && "total_gb" != "percent_used";
  }

  lemma AllCleanOfSum(a: seq<Segment>, b: seq<Segment>, c: seq<Segment>)
    requires AllClean(a) && AllClean(b) && AllClean(c)
    ensures AllClean(a + b + c)
  {
    hide Clean;
  }

  /** The four values of a disk are read from the first disk section there is. */
  lemma DiskFound(
    lead: string, before: seq<Segment>, name: string, d: Disk, after: seq<Segment>, was: DiskReading, unmounted: int)
    requires '\"' !in lead && IsName(name)
    requires AllClean(before) && AllClean(after) && NoDiskKeys(before)
    ensures DiskAt(lead + Render(before + DiskSegments(name, d) + after), was, unmounted) == Printed(d)
  {
    hide Render, PrintInt, PrintTenths, PrintHundredths, AllClean, IntAt, DecimalAt, IsKey, EndsNumber, NotBefore,
         DiskSegments, NoDiskKeys;
    DiskSegmentsAreClean(name, d);
    AllCleanOfSum(before, DiskSegments(name, d), after);
    DiskKeysInOrder(before, name, d, after);
    KeysAreKeys();
    DiskLength(name, d);
    var g, n := before + DiskSegments(name, d) + after, |before|;
    IntFound(lead, g, n + 1, "mounted", d.mounted, ",");
    HundredthsFound(lead, g, n + 2, "used_gb", d.usedGb, ",");
    HundredthsFound(lead, g, n + 3, "total_gb", d.totalGb, ",");
    TenthsFound(lead, g, n + 4, "percent_used", d.percentUsed, "},");
  }

  lemma DiskLength(name: string, d: Disk)
    ensures |DiskSegments(name, d)| == 5 && DiskSegments(name, d)[0] == Segment(name, ":{")
  {}

  lemma RenderOfSum(a: seq<Segment>, b: seq<Segment>)
    ensures Render(a + b) == Render(a) + Render(b)
  {
    if a == [] {
      assert a + b == b;
    } else {
      RenderOfSum(a[1..], b);
      assert (a + b)[1..] == a[1..] + b;
      Assoc(Quoted(a[0]), Render(a[1..]), Render(b));
    }
  }

  lemma SystemKeysInOrder(s: Status)
    ensures var g := SystemSegments(s);
            && |g| == 5 && g[0] == Segment("system", ":{")
            && NotBefore(g, 1, "cpu_temp_celsius") && NotBefore(g, 2, "memory_used_gb")
            && NotBefore(g, 3, "memory_total_gb") && NotBefore(g, 4, "memory_percent_used")
            && g[1] == Segment("cpu_temp_celsius", ":" + PrintTenths(s.cpuTemp) + ",")
            && g[2] == Segment("memory_used_gb", ":" + PrintHundredths(s.memoryUsed) + ",")
            && g[3] == Segment("memory_total_gb", ":" + PrintHundredths(s.memoryTotal) + ",")
            && g[4] == Segment("memory_percent_used", ":" + PrintTenths(s.memoryPercent) + "}}\n")
  {
    hide PrintTenths, PrintHundredths;
    assert |"system"| == 6 && |"cpu_temp_celsius"| == 16 && |"memory_used_gb"| == 14;
    assert |"memory_total_gb"| == 15 && |"memory_percent_used"| == 19;
  }

  lemma SystemFound(s: Status, f: Fields)
    ensures SystemAt(Render(SystemSegments(s)), f) ==
            f.(cpuTemp := Decimal(s.cpuTemp, 1), memoryUsed := Decimal(s.memoryUsed, 2),
               memoryTotal := Decimal(s.memoryTotal, 2), memoryPercent := Decimal(s.memoryPercent, 1))
  {
    hide Render, PrintTenths, PrintHundredths, AllClean, DecimalAt, IsKey, EndsNumber, NotBefore, SystemSegments;
    SystemSegmentsAreClean(s);
    SystemKeysInOrder(s);
    KeysAreKeys();
    var g := SystemSegments(s);
    assert "" + Render(g) == Render(g);
    TenthsFound("", g, 1, "cpu_temp_celsius", s.cpuTemp, ",");
    HundredthsFound("", g, 2, "memory_used_gb", s.memoryUsed, ",");
    HundredthsFound("", g, 3, "memory_total_gb", s.memoryTotal, ",");
    TenthsFound("", g, 4, "memory_percent_used", s.memoryPercent, "}}\n");
  }

  /** A section is the text from its name on. */
  lemma SectionFound(before: seq<Segment>, name: string, after: seq<Segment>)
    requires IsKey(name) && AllClean(before) && AllClean(after)
    requires after != [] && after[0] == Segment(name, ":{")
    requires forall k :: 0 <= k < |before| ==> before[k].word != name
    ensures Section("{" + Render(before + after), name) == Some(Render(after))
  {
    hide Render, Clean, Find, SkipBlanks, ValueText;
    SearchKeyIs(name);
    var g, n := before + after, |before|;
    assert forall k :: 0 <= k < n ==> g[k] == before[k];
    assert AllClean(g);
    ValueFound("{", g, n, name, "{");
    assert g[n..] == after;
  }

  lemma HeadHasNoDiskKeys(s: Status)
    ensures NoDiskKeys(HeadSegments(s)) && NoDiskKeys([])
    ensures forall k :: 0 <= k < 3 ==> HeadSegments(s)[k].word != "ssd2" && HeadSegments(s)[k].word != "system"
  {
    hide PrintInt;
    assert |"type"| == 4 && |"aquila_system_status"| == 20 && |"timestamp"| == 9;
    assert |"mounted"| == 7 && |"used_gb"| == 7 && |"total_gb"| == 8 && |"percent_used"| == 12;
    assert "type" != "ssd2";
  }

  /** The words of the first disk's section are not the names of the later sections. */
  lemma DiskWordsAreNotSections(name: string, d: Disk)
    requires IsName(name)
    ensures forall k :: 0 <= k < 5 ==> DiskSegments(name, d)[k].word != "system"
    ensures name == "ssd1" ==> forall k :: 0 <= k < 5 ==> DiskSegments(name, d)[k].word != "ssd2"
  {
    hide PrintInt, PrintTenths, PrintHundredths;
    assert |"mounted"| == 7 && |"used_gb"| == 7 && |"total_gb"| == 8 && |"percent_used"| == 12;
    assert |"ssd1"| == 4 && |"ssd2"| == 4 && |"system"| == 6 && "ssd1"[3] != "ssd2"[3];
  }

  lemma MessageIsRecognised(s: Status)
    ensures IsStatusMessage(Some(CreateStatusMessage(s)))
  {
    hide Render, Find, DiskSegments, SystemSegments, PrintInt;
    var word := "aquila_system_status";
    var g := Segments(s);
    var rest := Render(g[2..]);
    assert g[0] == Segment("type", ":") && g[1] == Segment(word, ",");
    RenderTwo(g);
    var json := CreateStatusMessage(s);
    var lead := "{" + "\"type\":" + "\"";
    assert json == lead + (word + ("\"," + rest));
    assert json[|lead|..] == word + ("\"," + rest);
    assert word <= json[|lead|..];
  }

  lemma RenderTwo(g: seq<Segment>)
    requires |g| >= 2
    ensures Render(g) == Quoted(g[0]) + (Quoted(g[1]) + Render(g[2..]))
  {
    assert g[1..][0] == g[1] && g[1..][1..] == g[2..];
  }

  lemma Ssd2Section(s: Status)
    ensures Section(CreateStatusMessage(s), "ssd2") == Some(Render(DiskSegments("ssd2", s.ssd2) + SystemSegments(s)))
  {
    hide Render, AllClean, HeadSegments, DiskSegments, SystemSegments, IsKey, Section;
    var head, sys := HeadSegments(s), SystemSegments(s);
    var one, two := DiskSegments("ssd1", s.ssd1), DiskSegments("ssd2", s.ssd2);
    CleanMessage(s);
    AllCleanOfSum([], head, one);
    AllCleanOfSum([], two, sys);
    HeadLength(s);
    HeadHasNoDiskKeys(s);
    DiskWordsAreNotSections("ssd1", s.ssd1);
    DiskLength("ssd1", s.ssd1);
    DiskLength("ssd2", s.ssd2);
    KeysAreKeys();
    assert [] + head + one == head + one && [] + two + sys == two + sys;
    assert Segments(s) == (head + one) + (two + sys);
    SectionFound(head + one, "ssd2", two + sys);
  }

  lemma SystemSection(s: Status)
    ensures Section(CreateStatusMessage(s), "system") == Some(Render(SystemSegments(s)))
  {
    hide Render, AllClean, HeadSegments, DiskSegments, SystemSegments, IsKey, Section;
    var head, sys := HeadSegments(s), SystemSegments(s);
    var one, two := DiskSegments("ssd1", s.ssd1), DiskSegments("ssd2", s.ssd2);
    CleanMessage(s);
    AllCleanOfSum(head, one, two);
    HeadLength(s);
    HeadHasNoDiskKeys(s);
    DiskWordsAreNotSections("ssd1", s.ssd1);
    DiskWordsAreNotSections("ssd2", s.ssd2);
    DiskLength("ssd1", s.ssd1);
    DiskLength("ssd2", s.ssd2);
    SystemKeysInOrder(s);
    KeysAreKeys();
    SectionFound(head + one + two, "system", sys);
  }

  lemma HeadLength(s: Status)
    ensures |HeadSegments(s)| == 3
  {}

  lemma CleanMessage(s: Status)
    ensures AllClean([]) && AllClean(HeadSegments(s)) && AllClean(SystemSegments(s))
    ensures AllClean(DiskSegments("ssd1", s.ssd1)) && AllClean(DiskSegments("ssd2", s.ssd2))
  {
    hide Clean, HeadSegments, DiskSegments, SystemSegments;
    HeadSegmentsAreClean(s);
    SystemSegmentsAreClean(s);
    DiskSegmentsAreClean("ssd1", s.ssd1);
    DiskSegmentsAreClean("ssd2", s.ssd2);
  }

  lemma DisksRoundTrip(s: Status, f: Fields)
    ensures DisksUpdated(f, CreateStatusMessage(s)) == f.(ssd1 := Printed(s.ssd1), ssd2 := Printed(s.ssd2))
  {
    hide Render, AllClean, HeadSegments, DiskSegments, SystemSegments, Section, DiskAt, NoDiskKeys;
    var head, sys := HeadSegments(s), SystemSegments(s);
    var one, two := DiskSegments("ssd1", s.ssd1), DiskSegments("ssd2", s.ssd2);
    CleanMessage(s);
    AllCleanOfSum([], two, sys);
    assert [] + two + sys == two + sys;
    HeadHasNoDiskKeys(s);
    assert Segments(s) == head + one + (two + sys);
    DiskFound("{", head, "ssd1", s.ssd1, two + sys, f.ssd1, 0);
    Ssd2Section(s);
    assert "" + Render(two + sys) == Render(two + sys);
    DiskFound("", [], "ssd2", s.ssd2, sys, f.ssd2, f.ssd2.mounted);
  }

  /** Status round trip: from any earlier state, updating from the message printed for `s` succeeds
      and sets every field to the value printed. */
  lemma StatusRoundTrip(s: Status, f: Fields, now: int)
    ensures var json := Some(CreateStatusMessage(s));
            && IsStatusMessage(json)
            && Updated(f, json, now) ==
               Fields(now, true, Printed(s.ssd1), Printed(s.ssd2), Decimal(s.cpuTemp, 1),
                      Decimal(s.memoryUsed, 2), Decimal(s.memoryTotal, 2), Decimal(s.memoryPercent, 1))
  {
    hide Find, CreateStatusMessage, IsStatusMessage, DisksUpdated, SystemAt, Printed;
    MessageIsRecognised(s);
    DisksRoundTrip(s, f);
    SystemSection(s);
    SystemFound(s, DisksUpdated(f, CreateStatusMessage(s)));
  }

  // ---------------------------------------------------------------- the buffer

  function Pow10(k: nat): (p: int)
    ensures p > 0
  {
    if k == 0 then 1 else 10 * Pow10(k - 1)
  }

  lemma {:induction false} DigitsLength(n: nat, k: nat)
    requires k > 0 && n < Pow10(k)
    ensures |Digits(n)| <= k
  {
    if n >= 10 {
      assert Pow10(1) == 10 * Pow10(0);
      assert k > 1;
      DigitsLength(n / 10, k - 1);
    }
  }

  /** The values of `float` fields at their precision, of an `int` and of a `long`. */
  predicate IsFloat(n: int) {
    Magnitude(n) < Pow10(41)
  }

  predicate IsInt(n: int) {
    Magnitude(n) < Pow10(10)
  }

  predicate IsDisk(d: Disk) {
    IsInt(d.mounted) && IsFloat(d.usedGb) && IsFloat(d.totalGb) && IsFloat(d.percentUsed)
  }

  predicate InRange(s: Status) {
    && Magnitude(s.timestamp) < Pow10(19) && IsDisk(s.ssd1) && IsDisk(s.ssd2)
    && IsFloat(s.cpuTemp) && IsFloat(s.memoryUsed) && IsFloat(s.memoryTotal) && IsFloat(s.memoryPercent)
  }

  lemma PrintedLength(n: int, k: nat)
    requires k > 0 && Magnitude(n) < Pow10(k)
    ensures |PrintInt(n)| <= k + 1
  {
    DigitsLength(Magnitude(n), k);
  }

  lemma PrintedFloatLength(n: int)
    requires IsFloat(n)
    ensures |PrintTenths(n)| <= 45 && |PrintHundredths(n)| <= 45
  {
    DigitsLength(Magnitude(n) / 10, 41);
    DigitsLength(Magnitude(n) / 100, 41);
  }

  lemma RenderLength(g: seq<Segment>)
    requires g != []
    ensures |Render(g)| == 2 + |g[0].word| + |g[0].after| + |Render(g[1..])|
  {}

  lemma RenderFive(g: seq<Segment>)
    requires |g| == 5
    ensures |Render(g)| == 10 + |g[0].word| + |g[0].after| + |g[1].word| + |g[1].after| + |g[2].word| + |g[2].after|
                           + |g[3].word| + |g[3].after| + |g[4].word| + |g[4].after|
  {
    RenderLength(g);
    RenderLength(g[1..]);
    RenderLength(g[2..]);
    RenderLength(g[3..]);
    RenderLength(g[4..]);
    assert g[1..][1..] == g[2..] && g[2..][1..] == g[3..] && g[3..][1..] == g[4..] && g[4..][1..] == [];
    hide Quoted;
  }

  lemma DiskTextLength(name: string, d: Disk)
    requires |name| == 4 && IsDisk(d)
    ensures |Render(DiskSegments(name, d))| <= 260
  {
    PrintedLength(d.mounted, 10);
    PrintedFloatLength(d.usedGb);
    PrintedFloatLength(d.totalGb);
    PrintedFloatLength(d.percentUsed);
    RenderFive(DiskSegments(name, d));
    hide Render, PrintInt, PrintTenths, PrintHundredths, Pow10;
  }

  lemma SystemTextLength(s: Status)
    requires InRange(s)
    ensures |Render(SystemSegments(s))| <= 300
  {
    PrintedFloatLength(s.cpuTemp);
    PrintedFloatLength(s.memoryUsed);
    PrintedFloatLength(s.memoryTotal);
    PrintedFloatLength(s.memoryPercent);
    RenderFive(SystemSegments(s));
    hide Render, PrintTenths, PrintHundredths, Pow10;
  }

  lemma HeadTextLength(s: Status)
    requires InRange(s)
    ensures |Render(HeadSegments(s))| <= 100
  {
    PrintedLength(s.timestamp, 19);
    var g := HeadSegments(s);
    RenderLength(g);
    RenderLength(g[1..]);
    RenderLength(g[2..]);
    assert g[1..][1..] == g[2..] && g[2..][1..] == [];
    hide Render, PrintInt, Pow10;
  }

  /** Whatever the values of its C types, the message and its terminator fit the 1024 bytes it is printed
      into, so that printing never cuts it. */
  lemma MessageFitsItsBuffer(s: Status)
    requires InRange(s)
    ensures |CreateStatusMessage(s)| < 1024
  {
    hide Render, HeadSegments, DiskSegments, SystemSegments, Pow10;
    HeadTextLength(s);
    DiskTextLength("ssd1", s.ssd1);
    DiskTextLength("ssd2", s.ssd2);
    SystemTextLength(s);
    RenderOfSum(HeadSegments(s) + DiskSegments("ssd1", s.ssd1) + DiskSegments("ssd2", s.ssd2), SystemSegments(s));
    RenderOfSum(HeadSegments(s) + DiskSegments("ssd1", s.ssd1), DiskSegments("ssd2", s.ssd2));
    RenderOfSum(HeadSegments(s), DiskSegments("ssd1", s.ssd1));
  }
}
