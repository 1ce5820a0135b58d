/** The day-number arithmetic of `get_JD` (Oph/src/coords.c), compared with a calendar that
    simply counts days. */
module JulianDay {

  datatype Date = Date(year: int, month: int, day: int)

  predicate IsLeap(year: int) {
    year % 4 == 0 && (year % 100 != 0 || year % 400 == 0)
  }

  function DaysInMonth(year: int, month: int): int {
    if month == 2 then (if IsLeap(year) then 29 else 28)
    else if month == 4 || month == 6 || month == 9 || month == 11 then 30
    else 31
  }

  predicate Valid(d: Date) {
    && 1 <= d.year
    && 1 <= d.month <= 12
    && 1 <= d.day <= DaysInMonth(d.year, d.month)
  }

  /** The day after `d` in the Gregorian calendar. */
  function Next(d: Date): Date
    requires Valid(d)
  {
    if d.day < DaysInMonth(d.year, d.month) then Date(d.year, d.month, d.day + 1)
    else if d.month < 12 then Date(d.year, d.month + 1, 1)
    else Date(d.year + 1, 1, 1)
  }

  const EPOCH := Date(1, 1, 1)

  /** The day before `d`. */
  function Prev(d: Date): (p: Date)
    requires Valid(d) && d != EPOCH
    ensures Valid(p) && Next(p) == d
  {
    if d.day > 1 then Date(d.year, d.month, d.day - 1)
    else if d.month > 1 then Date(d.year, d.month - 1, DaysInMonth(d.year, d.month - 1))
    else Date(d.year - 1, 12, 31)
  }

  /** The reference: the Julian day number obtained by counting days, one at a time, from
      1 January of year 1, whose number is 1721426. */
  ghost function CountedDayNumber(d: Date): int
    requires Valid(d)
    decreases d.year, d.month, d.day
  {
    if d == EPOCH then 1721426 else CountedDayNumber(Prev(d)) + 1
  }

  /** C's integer division, which truncates toward zero; Dafny's is Euclidean. */
  function CDiv(a: int, b: int): int
    requires b > 0
  {
    if a >= 0 then a / b else -((-a) / b)
  }

  /** `m` of `get_JD`: -1 in January and February, which count as months of the previous year. */
  function MonthShift(month: int): int {
    CDiv(month - 14, 12)
  }

  /** The month term of the formula: days from 1 March to the first of the month, plus 30. */
  function MonthTerm(month: int): int {
    CDiv(367 * (month - 2 - 12 * MonthShift(month)), 12)
  }

  /** The day number as `get_JD` computes it. */
  function Jdn(d: Date): int {
    var m := MonthShift(d.month);
    var a := CDiv(1461 * (d.year + 4800 + m), 4);
    var b := MonthTerm(d.month);
    var c := CDiv(3 * (d.year + 4900 + m), 100);
    a + b - CDiv(c, 4) + d.day - 32075
  }

  /** The formula `get_JD` is derived from: its century term divides by 100 before multiplying
      by 3. */
  function CenturyFirstJdn(d: Date): int {
    var m := MonthShift(d.month);
    var a := CDiv(1461 * (d.year + 4800 + m), 4);
    var b := MonthTerm(d.month);
    var c := 3 * CDiv(d.year + 4900 + m, 100);
    a + b - CDiv(c, 4) + d.day - 32075
  }

  /** The dates on which `get_JD` loses a day, from the shifted year 100 * q + r alone. */
  predicate LosesADay(d: Date) {
    var y := d.year + 4900 + MonthShift(d.month);
    var q, r := y / 100, y % 100;
    (q % 4 == 1 && r >= 34) || (q % 4 == 2 && r >= 67)
  }

  lemma MonthTerms(month: int)
    requires 1 <= month <= 12
    ensures MonthShift(month) == if month <= 2 then -1 else 0
    ensures 3 <= month < 12 ==> MonthTerm(month + 1) == MonthTerm(month) + DaysInMonth(1, month)
    ensures MonthTerm(12) + 31 == MonthTerm(1) && MonthTerm(1) + 31 == MonthTerm(2)
    ensures MonthTerm(2) == 367 && MonthTerm(3) == 30
  {
    assert month in {1, 2, 3, 4, 5, 6, 7, 8, 9, 10, 11, 12};
  }

  lemma QuarterSteps(year: int)
    requires year >= 0
    ensures (1461 * (year + 4800)) / 4 - (1461 * (year + 4799)) / 4 == if year % 4 == 0 then 366 else 365
  {
    var h, e := year / 4, year % 4;
    assert 1461 * (year + 4800) == 4 * (1461 * h + 1461 * 1200 + 365 * e) + e;
    assert 1461 * (year + 4799) == 4 * (1461 * h + 1461 * 1200 + 365 * (e - 1)) + (e - 1);
  }

  lemma Quotient100(n: int, q: int, r: int)
    requires n == 100 * q + r && 0 <= r < 100
    ensures n / 100 == q && n % 100 == r
  {}

  lemma Quotient4(n: int, q: int, r: int)
    requires n == 4 * q + r && 0 <= r < 4
    ensures n / 4 == q && n % 4 == r
  {}

  lemma Quotient400(n: int) returns (k: int, q: int, u: int)
    requires n >= 0
    ensures n == 100 * (4 * k + q) + u && 0 <= q < 4 && 0 <= u < 100
    ensures n % 100 == u && n % 400 == 100 * q + u
  {
    k := n / 400;
    var r := n % 400;
    q, u := r / 100, r % 100;
    Quotient100(n, 4 * k + q, u);
  }

  /** Three quarters of a century count of 4k + e. */
  lemma ThreeQuarters(k: int, e: int)
    requires 48 <= e <= 52
    ensures 3 * (4 * k + e) / 4 == 3 * k + if e <= 49 then 36 else e - 13
  {
    var h := if e <= 49 then 36 else e - 13;
    Quotient4(3 * (4 * k + e), 3 * k + h, 3 * e - 4 * h);
  }

  lemma CenturySteps(year: int)
    requires year >= 0
    ensures (3 * ((year + 4900) / 100)) / 4 - (3 * ((year + 4899) / 100)) / 4
            == if year % 100 == 0 && year % 400 != 0 then 1 else 0
  {
    var k, q, u := Quotient400(year);
    Quotient100(year + 4900, 4 * k + q + 49, u);
    var before := if u == 0 then q + 48 else q + 49;
    Quotient100(year + 4899, 4 * k + before, if u == 0 then 99 else u - 1);
    ThreeQuarters(k, q + 49);
    ThreeQuarters(k, before);
  }

  /** From one shifted year to the next the year terms gain 365 days, or 366 across a leap day. */
  lemma YearTerms(year: int)
    requires year >= 1
    ensures CDiv(1461 * (year + 4800), 4) - CDiv(3 * CDiv(year + 4900, 100), 4)
            - (CDiv(1461 * (year + 4799), 4) - CDiv(3 * CDiv(year + 4899, 100), 4))
            == if IsLeap(year) then 366 else 365
  {
    QuarterSteps(year);
    CenturySteps(year);
    PositiveCDiv(1461 * (year + 4800), 4);
    PositiveCDiv(1461 * (year + 4799), 4);
    PositiveCDiv(year + 4900, 100);
    PositiveCDiv(year + 4899, 100);
    PositiveCDiv(3 * ((year + 4900) / 100), 4);
    PositiveCDiv(3 * ((year + 4899) / 100), 4);
    CenturiesAreFourths(year);
    hide CDiv;
  }

  lemma PositiveCDiv(a: int, b: int)
    requires a >= 0 && b > 0
    ensures CDiv(a, b) == a / b && a / b >= 0
  {}

  lemma CenturiesAreFourths(year: int)
    ensures year % 100 == 0 ==> year % 4 == 0
  {
    if year % 100 == 0 {
      Quotient4(year, 25 * (year / 100), 0);
    }
  }

  function YearTerm(y: int): int {
    CDiv(1461 * (y + 4800), 4) - CDiv(3 * CDiv(y + 4900, 100), 4)
  }

  lemma CenturyFirstByTerms(d: Date)
    ensures CenturyFirstJdn(d) == YearTerm(d.year + MonthShift(d.month)) + MonthTerm(d.month) + d.day - 32075
  {
    hide CDiv, MonthShift, MonthTerm;
  }

  lemma YearTermSteps(year: int)
    requires year >= 1
    ensures YearTerm(year) - YearTerm(year - 1) == if IsLeap(year) then 366 else 365
  {
    hide CDiv, IsLeap;
    YearTerms(year);
    assert year - 1 + 4800 == year + 4799 && year - 1 + 4900 == year + 4899;
  }

  /** What the last day of a month adds up to. */
  lemma MonthEnds(year: int, month: int)
    requires year >= 1 && 1 <= month <= 12
    ensures var next := if month == 12 then 1 else month + 1;
            var nextYear := if month == 12 then year + 1 else year;
            YearTerm(nextYear + MonthShift(next)) + MonthTerm(next) + 1
            == YearTerm(year + MonthShift(month)) + MonthTerm(month) + DaysInMonth(year, month) + 1
  {
    hide YearTerm, MonthShift, MonthTerm, IsLeap, CDiv;
    MonthTerms(month);
    MonthTerms(if month == 12 then 1 else month + 1);
    YearTermSteps(year);
  }

  lemma CenturyFirstIsDaily(d: Date)
    requires Valid(d)
    ensures CenturyFirstJdn(Next(d)) == CenturyFirstJdn(d) + 1
  {
    hide CenturyFirstJdn, YearTerm, MonthShift, MonthTerm, DaysInMonth, IsLeap, CDiv;
    CenturyFirstByTerms(d);
    CenturyFirstByTerms(Next(d));
    MonthEnds(d.year, d.month);
  }

  /** The century-first formula is the counted day number, for every date. */
  lemma {:induction false} CenturyFirstIsCounted(d: Date)
    requires Valid(d)
    ensures CenturyFirstJdn(d) == CountedDayNumber(d)
    decreases d.year, d.month, d.day
  {
    if d == EPOCH {
      assert MonthShift(1) == -1;
    } else {
      CenturyFirstIsCounted(Prev(d));
      CenturyFirstIsDaily(Prev(d));
    }
  }

  lemma CenturyTerms(y: int)
    requires y >= 0
    ensures var q, r := y / 100, y % 100;
            CDiv(CDiv(3 * y, 100), 4) - CDiv(3 * CDiv(y, 100), 4)
            == (if (q % 4 == 1 && r >= 34) || (q % 4 == 2 && r >= 67) then 1 else 0)
  {
    var q, r := y / 100, y % 100;
    assert (3 * y) / 100 == 3 * q + (3 * r) / 100;
    QuartersOfThrice(q / 4, q % 4, (3 * r) / 100);
  }

  lemma QuartersOfThrice(h: int, g: int, e: int)
    requires 0 <= g < 4 && 0 <= e < 3
    ensures (3 * (4 * h + g) + e) / 4 - 3 * (4 * h + g) / 4 == if (g == 1 && e >= 1) || (g == 2 && e >= 2) then 1 else 0
  {
    assert (3 * (4 * h + g) + e) / 4 == 3 * h + (3 * g + e) / 4;
    assert 3 * (4 * h + g) / 4 == 3 * h + 3 * g / 4;
  }

  lemma JdnAgainstCenturyFirst(d: Date)
    requires Valid(d)
    ensures Jdn(d) == CenturyFirstJdn(d) - (if LosesADay(d) then 1 else 0)
  {
    MonthTerms(d.month);
    var y := d.year + 4900 + MonthShift(d.month);
    CenturyTerms(y);
    assert CDiv(3 * y, 100) == (3 * y) / 100;
  }

  /** `get_JD`'s day number is the counted one, less one day exactly on the dates that
      `LosesADay` picks out. */
  lemma JdnAgainstCount(d: Date)
    requires Valid(d)
    ensures Jdn(d) == CountedDayNumber(d) - (if LosesADay(d) then 1 else 0)
    ensures Jdn(d) == CountedDayNumber(d) <==> !LosesADay(d)
  {
    CenturyFirstIsCounted(d);
    JdnAgainstCenturyFirst(d);
  }

  /** Two successive days get successive numbers exactly when both or neither lose a day. */
  lemma SuccessiveDays(d: Date)
    requires Valid(d)
    ensures Jdn(Next(d)) == Jdn(d) + 1 <==> (LosesADay(d) <==> LosesADay(Next(d)))
  {
    hide Jdn, CenturyFirstJdn, LosesADay, Next;
    CenturyFirstIsDaily(d);
    NextIsValid(d);
    JdnAgainstCenturyFirst(d);
    JdnAgainstCenturyFirst(Next(d));
  }

  lemma NextIsValid(d: Date)
    requires Valid(d)
    ensures Valid(Next(d))
  {}

  lemma RepeatsIn2034()
    ensures Next(Date(2034, 2, 28)) == Date(2034, 3, 1)
    ensures Jdn(Date(2034, 3, 1)) == Jdn(Date(2034, 2, 28))
  {
    assert MonthShift(2) == -1 && MonthShift(3) == 0;
  }

  /** The numbering is exact from 1 March 2000 through 28 February 2034 and then repeats a
      number: 1 March 2034 gets the number of the day before. */
  lemma ExactUntil2034(d: Date)
    requires Valid(d)
    requires d.year > 2000 || (d.year == 2000 && d.month >= 3)
    requires d.year < 2034 || (d.year == 2034 && d.month <= 2)
    ensures Jdn(d) == CountedDayNumber(d)
    ensures Next(Date(2034, 2, 28)) == Date(2034, 3, 1)
    ensures Jdn(Date(2034, 3, 1)) == Jdn(Date(2034, 2, 28))
  {
    JdnAgainstCount(d);
    MonthTerms(d.month);
    assert !LosesADay(d) by {
      var y := d.year + 4900 + MonthShift(d.month);
      assert 6900 <= y <= 6933;
      assert y / 100 == 69 && y % 100 <= 33;
    }
    RepeatsIn2034();
  }

  /** A UTC instant as `get_UTC` prints it. */
  datatype Instant = Instant(date: Date, hour: int, minute: int, second: real)

  /** The value `get_JD` returns. */
  function JulianDate(t: Instant): real {
    Jdn(t.date) as real + t.hour as real / 24.0 + t.minute as real / 1440.0 + t.second / 86400.0 - 0.5
  }

  /** Seconds from the counted midnight that opens 1 January of year 1, shifted to its day number. */
  ghost function CountedSeconds(t: Instant): real
    requires Valid(t.date)
  {
    86400.0 * CountedDayNumber(t.date) as real + 3600.0 * t.hour as real + 60.0 * t.minute as real + t.second
  }

  /** Noon of a day is its counted number, and any other moment differs from it by the time since noon, exactly on
      the dates that lose no day. */
  lemma NoonIsTheCountedDay(t: Instant)
    requires Valid(t.date)
    ensures JulianDate(Instant(t.date, 12, 0, 0.0)) == CountedDayNumber(t.date) as real <==> !LosesADay(t.date)
    ensures var sinceNoon := (t.hour - 12) as real * 3600.0 + t.minute as real * 60.0 + t.second;
            (JulianDate(t) - CountedDayNumber(t.date) as real) * 86400.0 == sinceNoon <==> !LosesADay(t.date)
  {
    hide Jdn, LosesADay, CountedDayNumber;
    JdnAgainstCount(t.date);
  }

  /** The difference of two Julian dates is the elapsed time in days exactly when both or
      neither of the two dates lose a day. */
  lemma JulianDateMeasuresElapsedTime(t: Instant, u: Instant)
    requires Valid(t.date) && Valid(u.date)
    ensures (JulianDate(u) - JulianDate(t)) * 86400.0 == CountedSeconds(u) - CountedSeconds(t)
            <==> (LosesADay(t.date) <==> LosesADay(u.date))
  {
    JdnAgainstCount(t.date);
    JdnAgainstCount(u.date);
  }
}
