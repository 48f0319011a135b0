/** The calendar of src/timeconv.c and src/tz.c: seconds since 1970 to years, months and days and back, in
    the proleptic Gregorian calendar. */
module Calendar {
  import opened Basics

  // ---- the calendar ----

  predicate IsLeap(y: int) { (y % 4 == 0 && y % 100 != 0) || y % 400 == 0 }

  function YearLength(y: int): int { 365 + One(IsLeap(y)) }

  const MONTHS: seq<int> := [31, 28, 31, 30, 31, 30, 31, 31, 30, 31, 30, 31]

  function MonthLength(y: int, m: int): int
    requires 1 <= m <= 12
  {
    MONTHS[m - 1] + One(m == 2 && IsLeap(y))
  }

  /** The days from 1970 to the start of a year: the lengths of the years in between. */
  function YearStart(y: int): int
    decreases if y >= 1970 then y - 1970 else 1970 - y
  {
    if y == 1970 then 0 else if y > 1970 then YearStart(y - 1) + YearLength(y - 1) else YearStart(y + 1) - YearLength(y)
  }

  /** The days of a year before a month: the lengths of the months before it. */
  function MonthStart(y: int, m: int): int
    requires 1 <= m <= 12
    decreases m
  {
    if m == 1 then 0 else MonthStart(y, m - 1) + MonthLength(y, m - 1)
  }

  /** The leap days up to the end of year n, from the end of year 0. */
  function Leaps(n: int): int { n / 4 - n / 100 + n / 400 }

  lemma LeapsNext(n: int)
    ensures Leaps(n) == Leaps(n - 1) + One(IsLeap(n))
  {
    DivNext(n, 4); DivNext(n, 100); DivNext(n, 400);
    assert n % 400 == 0 ==> n % 100 == 0;
    assert n % 100 == 0 ==> n % 4 == 0;
  }

  lemma DivNext(n: int, k: int)
    requires k > 1
    ensures n / k == (n - 1) / k + One(n % k == 0)
  {
    var q, r := n / k, n % k;
    assert n == q * k + r;
    if r == 0 {
      assert n - 1 == (q - 1) * k + (k - 1);
      DivIs(n - 1, k, q - 1, k - 1);
    } else {
      DivIs(n - 1, k, q, r - 1);
    }
  }

  lemma DivIs(n: int, k: int, q: int, r: int)
    requires 0 <= r < k && n == q * k + r
    ensures n / k == q && n % k == r
  {
    var d := q - n / k;
    assert d * k == n % k - r;
    Multiple(d, k);
  }

  lemma Multiple(d: int, k: int)
    requires k > 0
    ensures (d >= 1 ==> d * k >= k) && (d <= -1 ==> d * k <= -k)
  {
  }

  lemma {:induction false} YearStartIs(y: int)
    ensures YearStart(y) == 365 * y + Leaps(y - 1) - 719527
    decreases if y >= 1970 then y - 1970 else 1970 - y
  {
    assert Leaps(1969) == 477;
    hide Leaps;
    if y == 1970 {
    } else if y > 1970 {
      YearStartIs(y - 1);
      LeapsNext(y - 1);
    } else {
      YearStartIs(y + 1);
      LeapsNext(y);
    }
  }

  lemma YearNext(y: int)
    ensures YearStart(y + 1) == YearStart(y) + YearLength(y)
  {
    hide YearStart;
    YearStartIs(y); YearStartIs(y + 1); LeapsNext(y);
  }

  // ---- days_from_civil ----

  /** C's division, towards zero. */
  function CDiv(a: int, b: int): int
    requires b > 0
  {
    if a >= 0 then a / b else -(-a / b)
  }

  function CMod(a: int, b: int): int
    requires b > 0
  {
    a - b * CDiv(a, b)
  }

  function DaysFromCivil(year: int, m: int, d: int): int
    requires 1 <= m <= 12
  {
    var y := year - One(m <= 2);
    var era := CDiv(if y >= 0 then y else y - 399, 400);
    var yoe := y - era * 400;
    var doy := (153 * (m + if m > 2 then -3 else 9) + 2) / 5 + d - 1;
    var doe := yoe * 365 + yoe / 4 - yoe / 100 + doy;
    era * 146097 + doe - 719468
  }

  /** Rounding down by way of C's division. */
  lemma EraIs(y: int, k: int)
    requires k > 0
    ensures CDiv(if y >= 0 then y else y - (k - 1), k) == y / k
  {
    if y < 0 {
      var q, r := y / k, y % k;
      assert y == q * k + r;
      var n := -(y - (k - 1));
      assert n == (-q) * k + (k - 1 - r);
      DivIs(n, k, -q, k - 1 - r);
    }
  }

  lemma LeapsEra(era: int, yoe: int)
    requires 0 <= yoe < 400
    ensures Leaps(400 * era + yoe) == 97 * era + yoe / 4 - yoe / 100
  {
    var n := 400 * era + yoe;
    DivIs(n, 400, era, yoe);
    DivIs(n, 4, 100 * era + yoe / 4, yoe % 4);
    DivIs(n, 100, 4 * era + yoe / 100, yoe % 100);
  }

  /** The first of March of year 400 * era + yoe. */
  lemma MarchFirst(era: int, yoe: int)
    requires 0 <= yoe < 400
    ensures var y := 400 * era + yoe;
            YearStart(y) + 59 + One(IsLeap(y)) == era * 146097 + yoe * 365 + yoe / 4 - yoe / 100 - 719468
  {
    hide YearStart, Leaps, IsLeap;
    var y := 400 * era + yoe;
    YearStartIs(y); LeapsNext(y); LeapsEra(era, yoe);
  }

  /** Days are counted in a year that starts in March. */
  lemma MarchMonths(y: int, m: int)
    requires 1 <= m <= 12
    ensures m > 2 ==> MonthStart(y, m) == 59 + One(IsLeap(y)) + (153 * (m - 3) + 2) / 5
    ensures m <= 2 ==> MonthStart(y, m) == (153 * (m + 9) + 2) / 5 - 306
  {
    hide IsLeap;
    MonthStarts(y);
  }

  lemma MonthStarts(y: int)
    ensures var l := One(IsLeap(y));
            && MonthStart(y, 1) == 0 && MonthStart(y, 2) == 31 && MonthStart(y, 3) == 59 + l
                && MonthStart(y, 4) == 90 + l
            && MonthStart(y, 5) == 120 + l && MonthStart(y, 6) == 151 + l && MonthStart(y, 7) == 181 + l
                && MonthStart(y, 8) == 212 + l
            && MonthStart(y, 9) == 243 + l && MonthStart(y, 10) == 273 + l && MonthStart(y, 11) == 304 + l
                && MonthStart(y, 12) == 334 + l
  {
    hide IsLeap;
    assert MonthStart(y, 3) == 59 + One(IsLeap(y));
    assert MonthStart(y, 5) == MonthStart(y, 4) + 30 && MonthStart(y, 4) == MonthStart(y, 3) + 31;
    assert MonthStart(y, 7) == MonthStart(y, 6) + 30 && MonthStart(y, 6) == MonthStart(y, 5) + 31;
    assert MonthStart(y, 9) == MonthStart(y, 8) + 31 && MonthStart(y, 8) == MonthStart(y, 7) + 31;
    assert MonthStart(y, 11) == MonthStart(y, 10) + 31 && MonthStart(y, 10) == MonthStart(y, 9) + 30;
    assert MonthStart(y, 12) == MonthStart(y, 11) + 30;
  }

  /** `__days_from_civil` counts days as the calendar does. */
  lemma DaysFromCivilIs(y: int, m: int, d: int)
    requires 1 <= m <= 12
    ensures DaysFromCivil(y, m, d) == YearStart(y) + MonthStart(y, m) + d - 1
  {
    hide YearStart, MonthStart, IsLeap, CDiv;
    var y' := y - One(m <= 2);
    EraIs(y', 400);
    MarchFirst(y' / 400, y' % 400);
    MarchMonths(y, m);
    YearNext(y');
  }

  // ---- secs_to_tm ----

  datatype Tm = Tm(year: int, mon: int, mday: int, yday: int, wday: int, hour: int, min: int, sec: int)

  /** The time of a reading: the days of the years, of the months and of the month before it. */
  function TimeOf(y: int, m: int, d: int, secs: int): int
    requires 1 <= m <= 12
  {
    86400 * (YearStart(y) + MonthStart(y, m) + d - 1) + secs
  }

  /** tm is time t on the calendar and on the clock. */
  predicate Reads(t: int, tm: Tm) {
    var y, m := tm.year + 1900, tm.mon + 1;
    && 1 <= m <= 12 && 1 <= tm.mday <= MonthLength(y, m)
    && 0 <= tm.hour < 24 && 0 <= tm.min < 60 && 0 <= tm.sec < 60
    && t == TimeOf(y, m, tm.mday, 3600 * tm.hour + 60 * tm.min + tm.sec)
    && tm.yday == MonthStart(y, m) + tm.mday - 1
    && 0 <= tm.wday < 7 && (t / 86400 + 4 - tm.wday) % 7 == 0
  }

  /** A day in the 400 years that start in March of a year divisible by 400: year, month from March and
      day from 1. */
  datatype Civil = Civil(yoe: int, mp: int, d: int)

  function CivilOf(doe: int): Civil {
    var yoe := (doe - doe / 1460 + doe / 36524 - doe / 146096) / 365;
    var doy := doe - (365 * yoe + yoe / 4 - yoe / 100);
    var mp := (5 * doy + 2) / 153;
    Civil(yoe, mp, doy - (153 * mp + 2) / 5 + 1)
  }

  /** The month of c and its year. */
  function MonthOf(c: Civil): int { if c.mp < 10 then c.mp + 3 else c.mp - 9 }

  function YearOf(era: int, c: Civil): int { 400 * era + c.yoe + One(MonthOf(c) <= 2) }

  /** The year, month and day that `secs_to_tm` works out. */
  function DateOf(days: int): (int, int, int) {
    var z := days + 719468;
    var era := CDiv(if z >= 0 then z else z - 146096, 146097);
    var c := CivilOf(z - era * 146097);
    (YearOf(era, c), MonthOf(c), c.d)
  }

  function SecsToTm(t: int): Option<Tm> {
    var q, r := CDiv(t, 86400), CMod(t, 86400);
    var days, rem := if r < 0 then q - 1 else q, if r < 0 then r + 86400 else r;
    var (y, m, d) := DateOf(days);
    if y - 1900 > INT_MAX || y - 1900 < INT_MIN then None
    else
      Some(Tm(y - 1900, m - 1, d, days - DaysFromCivil(y, 1, 1), CMod(CMod(days, 7) + 11, 7),
              rem / 3600, rem / 60 % 60, rem % 60))
  }

  /** The leap day of a year that starts in March is at its end. */
  predicate LongYear(yoe: int) { yoe % 4 == 3 && (yoe % 100 != 99 || yoe == 399) }

  /** doe is day doy of year yoe. */
  predicate DayOf(doe: int, yoe: int, doy: int) {
    0 <= yoe < 400 && 0 <= doy < 365 + One(LongYear(yoe)) && doe == 365 * yoe + yoe / 4 - yoe / 100 + doy
  }

  /** Every day is some day of some year: centuries, then four-year groups, then years. */
  lemma SomeYear(doe: int) returns (yoe: int, doy: int)
    requires 0 <= doe < 146097
    ensures DayOf(doe, yoe, doy)
  {
    var c := if doe / 36524 < 3 then doe / 36524 else 3;
    var r := doe - 36524 * c;
    var q := if r / 1461 < 24 then r / 1461 else 24;
    var s := r - 1461 * q;
    var j := if s / 365 < 3 then s / 365 else 3;
    yoe, doy := 100 * c + 4 * q + j, s - 365 * j;
    assert yoe / 4 == 25 * c + q && yoe % 4 == j && yoe / 100 == c;
  }

  lemma CenturyOf(doe: int, yoe: int, doy: int)
    requires DayOf(doe, yoe, doy)
    ensures doe / 36524 - doe / 146096 == yoe / 100
  {
    var c, k := yoe / 100, yoe % 100;
    assert yoe / 4 == 25 * c + k / 4;
    CenturyDays(c, 365 * k + k / 4 + doy);
  }

  lemma CenturyDays(c: int, r: int)
    requires 0 <= c <= 3 && 0 <= r <= 36524 && (r == 36524 ==> c == 3)
    ensures var doe := 36524 * c + r; doe / 36524 - doe / 146096 == c
  {
    var doe := 36524 * c + r;
    if r < 36524 {
      DivIs(doe, 36524, c, r);
      DivIs(doe, 146096, 0, doe);
    }
  }

  /** The year estimated from the day is the year. */
  lemma YearFormula(doe: int, yoe: int, doy: int)
    requires DayOf(doe, yoe, doy)
    ensures (doe - doe / 1460 + doe / 36524 - doe / 146096) / 365 == yoe
  {
    CenturyOf(doe, yoe, doy);
    var q, j, c := yoe / 4, yoe % 4, yoe / 100;
    var x := 365 * j + doy + q - c;
    assert doe == 1460 * q + x && 0 <= q - c <= 96;
    assert doe / 1460 == if x >= 1460 then q + 1 else q;
    assert x >= 1460 ==> doy >= 1;
  }

  /** The months of a year that starts in March. */
  lemma MonthFormula(doy: int)
    requires 0 <= doy < 366
    ensures var mp := (5 * doy + 2) / 153; var first := (153 * mp + 2) / 5;
            0 <= mp <= 11 && first <= doy && (mp < 11 ==> doy < (153 * (mp + 1) + 2) / 5)
  {
  }

  /** c is day doe. */
  predicate CivilIs(doe: int, c: Civil) {
    var doy := (153 * c.mp + 2) / 5 + c.d - 1;
    DayOf(doe, c.yoe, doy) && 0 <= c.mp <= 11 && 1 <= c.d && (c.mp < 11 ==> doy < (153 * (c.mp + 1) + 2) / 5)
  }

  lemma CivilOfIs(doe: int)
    requires 0 <= doe < 146097
    ensures CivilIs(doe, CivilOf(doe))
  {
    var yoe, doy := SomeYear(doe);
    YearFormula(doe, yoe, doy);
    MonthFormula(doy);
  }

  /** The last year of the calendar year is the leap one: February of the year after. */
  lemma LongIsLeap(era: int, yoe: int)
    requires 0 <= yoe < 400
    ensures LongYear(yoe) <==> IsLeap(400 * era + yoe + 1)
  {
    var y := 400 * era + yoe + 1;
    var x := yoe + 1;
    if x == 400 {
      DivIs(y, 400, era + 1, 0); DivIs(y, 100, 4 * era + 4, 0); DivIs(y, 4, 100 * era + 100, 0);
    } else {
      DivIs(y, 400, era, x); DivIs(y, 100, 4 * era + x / 100, x % 100); DivIs(y, 4, 100 * era + x / 4, x % 4);
    }
  }

  lemma DateOfIs(days: int)
    ensures var (y, m, d) := DateOf(days);
            1 <= m <= 12 && 1 <= d <= MonthLength(y, m) && days == YearStart(y) + MonthStart(y, m) + d - 1
  {
    hide DateOf, YearStart, MonthStart, MonthLength;
    var z := days + 719468;
    DateFrom(days, z / 146097, z % 146097);
  }

  lemma DateFrom(days: int, era: int, doe: int)
    requires days + 719468 == era * 146097 + doe && 0 <= doe < 146097
    ensures var (y, m, d) := DateOf(days);
            1 <= m <= 12 && 1 <= d <= MonthLength(y, m) && days == YearStart(y) + MonthStart(y, m) + d - 1
  {
    hide YearStart, MonthStart, MonthLength, CivilOf, DateOf, DaysFromCivil, CivilIs;
    DatePart(days, era, doe);
    CivilOfIs(doe);
    var (y, m, d) := DateOf(days);
    CivilDays(era, doe, CivilOf(doe));
    DaysFromCivilIs(y, m, d);
    LastOfMonth(era, doe, CivilOf(doe));
  }

  lemma DatePart(days: int, era: int, doe: int)
    requires days + 719468 == era * 146097 + doe && 0 <= doe < 146097
    ensures var c := CivilOf(doe); DateOf(days) == (YearOf(era, c), MonthOf(c), c.d)
  {
    hide CivilOf, CDiv;
    DivIs(days + 719468, 146097, era, doe);
    EraIs(days + 719468, 146097);
  }

  /** `__days_from_civil` undoes the search for the year and the month. */
  lemma CivilDays(era: int, doe: int, c: Civil)
    requires CivilIs(doe, c)
    ensures 1 <= MonthOf(c) <= 12 && DaysFromCivil(YearOf(era, c), MonthOf(c), c.d) == era * 146097 + doe - 719468
  {
    hide CDiv;
    var y := 400 * era + c.yoe;
    DivIs(y, 400, era, c.yoe); EraIs(y, 400);
  }

  lemma LastOfMonth(era: int, doe: int, c: Civil)
    requires CivilIs(doe, c)
    ensures 1 <= MonthOf(c) <= 12 && 1 <= c.d <= MonthLength(YearOf(era, c), MonthOf(c))
  {
    hide IsLeap, LongYear;
    LongIsLeap(era, c.yoe);
  }

  /** The day and the second of the day. */
  lemma DayAndRest(t: int)
    ensures var q, r := CDiv(t, 86400), CMod(t, 86400);
            (if r < 0 then q - 1 else q) == t / 86400 && (if r < 0 then r + 86400 else r) == t % 86400
  {
    if t < 0 {
      var n := -t;
      var q, r := n / 86400, n % 86400;
      if r == 0 { DivIs(t, 86400, -q, 0); } else { DivIs(t, 86400, -q - 1, 86400 - r); }
    }
  }

  lemma WeekDay(days: int)
    ensures var w := CMod(CMod(days, 7) + 11, 7); 0 <= w < 7 && (days + 4 - w) % 7 == 0
  {
    var x := CMod(days, 7);
    assert -7 < x < 7 && (days - x) % 7 == 0;
  }

  /** `secs_to_tm` reads every time as the calendar does. */
  lemma SecsToTmReads(t: int)
    requires SecsToTm(t).Some?
    ensures Reads(t, SecsToTm(t).value)
  {
    hide DateOf, CDiv, CMod, YearStart, MonthStart, MonthLength, DaysFromCivil;
    DayAndRest(t);
    var days, rem := t / 86400, t % 86400;
    DateOfIs(days);
    WeekDay(days);
    var (y, m, d) := DateOf(days);
    DaysFromCivilIs(y, 1, 1);
    FirstMonth(y);
    assert rem == 3600 * (rem / 3600) + 60 * (rem / 60 % 60) + rem % 60;
  }

  lemma FirstMonth(y: int)
    ensures MonthStart(y, 1) == 0
  {
  }

  // ---- years in order ----

  lemma {:induction false} YearsGrow(a: int, b: int)
    requires a <= b
    ensures YearStart(a) + 365 * (b - a) <= YearStart(b)
    decreases b - a
  {
    hide YearStart;
    if a < b {
      YearsGrow(a, b - 1);
      YearNext(b - 1);
    }
  }

  lemma YearUnique(days: int, a: int, b: int)
    requires YearStart(a) <= days < YearStart(a + 1) && YearStart(b) <= days < YearStart(b + 1)
    ensures a == b
  {
    hide YearStart;
    if a < b { YearsGrow(a + 1, b); } else if b < a { YearsGrow(b + 1, a); }
  }

  lemma {:induction false} MonthsGrow(y: int, a: int, b: int)
    requires 1 <= a <= b <= 12
    ensures MonthStart(y, a) + 28 * (b - a) <= MonthStart(y, b)
    decreases b - a
  {
    if a < b { MonthsGrow(y, a, b - 1); }
  }

  /** A day of a month is a day of its year. */
  lemma WithinYear(y: int, m: int, d: int)
    requires 1 <= m <= 12 && 1 <= d <= MonthLength(y, m)
    ensures 0 <= MonthStart(y, m) + d - 1 < YearLength(y)
  {
    hide IsLeap;
    MonthStarts(y);
  }

  lemma InItsYear(y: int, m: int, d: int)
    requires 1 <= m <= 12 && 1 <= d <= MonthLength(y, m)
    ensures var days := YearStart(y) + MonthStart(y, m) + d - 1; YearStart(y) <= days < YearStart(y + 1)
  {
    hide YearStart, MonthStart, MonthLength, YearLength;
    WithinYear(y, m, d);
    YearNext(y);
  }

  /** It fails exactly for the years that do not fit. */
  lemma SecsToTmFits(t: int, y: int)
    requires YearStart(y) <= t / 86400 < YearStart(y + 1)
    ensures SecsToTm(t).Some? <==> INT_MIN <= y - 1900 <= INT_MAX
  {
    hide DateOf, CDiv, CMod, YearStart, MonthStart, MonthLength, DaysFromCivil;
    DayAndRest(t);
    DateOfIs(t / 86400);
    var (y', m, d) := DateOf(t / 86400);
    InItsYear(y', m, d);
    YearUnique(t / 86400, y, y');
  }

  /** A time has one reading. */
  lemma ReadsOnce(t: int, a: Tm, b: Tm)
    requires Reads(t, a) && Reads(t, b)
    ensures a == b
  {
    hide YearStart, MonthStart, MonthLength;
    ReadsDay(t, a); ReadsDay(t, b);
    InItsYear(a.year + 1900, a.mon + 1, a.mday); InItsYear(b.year + 1900, b.mon + 1, b.mday);
    YearUnique(t / 86400, a.year + 1900, b.year + 1900);
    if a.mon < b.mon {
      MonthAfter(a.year + 1900, a.mon + 1, b.mon + 1);
    } else if b.mon < a.mon {
      MonthAfter(a.year + 1900, b.mon + 1, a.mon + 1);
    }
  }

  lemma MonthAfter(y: int, a: int, b: int)
    requires 1 <= a < b <= 12
    ensures MonthStart(y, a) + MonthLength(y, a) <= MonthStart(y, b)
  {
    MonthsGrow(y, a + 1, b);
  }

  lemma ReadsDay(t: int, tm: Tm)
    requires Reads(t, tm)
    ensures t / 86400 == YearStart(tm.year + 1900) + MonthStart(tm.year + 1900, tm.mon + 1) + tm.mday - 1
    ensures t % 86400 == 3600 * tm.hour + 60 * tm.min + tm.sec
  {
    hide YearStart, MonthStart, MonthLength;
    DivIs(t, 86400, YearStart(tm.year + 1900) + MonthStart(tm.year + 1900, tm.mon + 1) + tm.mday - 1, 3600 * tm.hour
        + 60 * tm.min + tm.sec);
  }

  // ---- tm_to_secs ----

  /** `tm_to_secs`: fields out of range carry over; it fails for years beyond 2^40. */
  function TmToSecs(tm: Tm): Option<int> {
    var q, r := CDiv(tm.mon, 12), CMod(tm.mon, 12);
    var y := tm.year + 1900 + if r < 0 then q - 1 else q;
    var mon := if r < 0 then r + 12 else r;
    if y > 0x100_0000_0000 || y < -0x100_0000_0000 then None
    else Some((DaysFromCivil(y, mon + 1, 1) + tm.mday - 1) * 86400 + tm.hour * 3600 + tm.min * 60 + tm.sec)
  }

  lemma MonthCarry(mon: int)
    ensures var q, r := CDiv(mon, 12), CMod(mon, 12);
            (if r < 0 then q - 1 else q) == mon / 12 && (if r < 0 then r + 12 else r) == mon % 12
  {
    if mon < 0 {
      var n := -mon;
      var q, r := n / 12, n % 12;
      if r == 0 { DivIs(mon, 12, -q, 0); } else { DivIs(mon, 12, -q - 1, 12 - r); }
    }
  }

  /** Any fields at all: months carry into years, and the rest counts from the first of the month. */
  lemma TmToSecsIs(tm: Tm)
    ensures var y := tm.year + 1900 + tm.mon / 12;
            TmToSecs(tm) == if -0x100_0000_0000 <= y <= 0x100_0000_0000
                            then Some(TimeOf(y, tm.mon % 12 + 1, tm.mday, 3600 * tm.hour + 60 * tm.min + tm.sec))
                                else None
  {
    hide CDiv, CMod, YearStart, MonthStart, DaysFromCivil;
    MonthCarry(tm.mon);
    DaysFromCivilIs(tm.year + 1900 + tm.mon / 12, tm.mon % 12 + 1, 1);
  }

  /** Every time that has a reading comes back from it. */
  lemma SecsRoundTrip(t: int)
    requires SecsToTm(t).Some?
    ensures TmToSecs(SecsToTm(t).value) == Some(t)
  {
    hide SecsToTm, TmToSecs, YearStart, MonthStart, MonthLength;
    SecsToTmReads(t);
    SecsToTmYear(t);
    var tm := SecsToTm(t).value;
    TmToSecsIs(tm);
    assert tm.mon / 12 == 0 && tm.mon % 12 == tm.mon;
  }

  lemma SecsToTmYear(t: int)
    requires SecsToTm(t).Some?
    ensures INT_MIN <= SecsToTm(t).value.year <= INT_MAX
  {
    hide DateOf, CDiv, CMod, DaysFromCivil;
  }

  /** And every reading comes back from its time. */
  lemma TmRoundTrip(tm: Tm)
    requires INT_MIN <= tm.year <= INT_MAX && TmToSecs(tm).Some? && Reads(TmToSecs(tm).value, tm)
    ensures SecsToTm(TmToSecs(tm).value) == Some(tm)
  {
    hide SecsToTm, TmToSecs, YearStart, MonthStart, MonthLength;
    var t := TmToSecs(tm).value;
    ReadsDay(t, tm);
    InItsYear(tm.year + 1900, tm.mon + 1, tm.mday);
    SecsToTmFits(t, tm.year + 1900);
    SecsToTmReads(t);
    ReadsOnce(t, tm, SecsToTm(t).value);
  }

  /** `timegm`: the time that fields mean, and the fields put in order. */
  function Timegm(tm: Tm): Option<(int, Tm)> {
    var t := TmToSecs(tm);
    if t.None? then None
    else
      var n := SecsToTm(t.value);
      if n.None? then None else Some((t.value, n.value))
  }

  /** The fields are put in order once. */
  lemma TimegmAgain(tm: Tm)
    requires Timegm(tm).Some?
    ensures Reads(Timegm(tm).value.0, Timegm(tm).value.1) && Timegm(Timegm(tm).value.1) == Timegm(tm)
  {
    hide SecsToTm, TmToSecs, Reads;
    SecsToTmReads(TmToSecs(tm).value);
    SecsRoundTrip(TmToSecs(tm).value);
  }
}
