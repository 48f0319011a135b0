/** The calendar and the dates of TZ rules (src/timeconv.c, src/tz.c) against formulas and wall clocks. */
module CalendarLaws {
  import opened Basics
  import opened Calendar
  import opened Timezone
  import opened Mktime

  // ---- the day of the week ----

  lemma ModShift(x: int, k: int)
    ensures (x + 7 * k) % 7 == x % 7
  {
    DivIs(x + 7 * k, 7, x / 7 + k, x % 7);
  }

  /** Zeller's congruence, counted from Sunday: the year starts in March. */
  function Zeller(y: int, m: int, d: int): int {
    var Y, M := if m <= 2 then y - 1 else y, if m <= 2 then m + 12 else m;
    (d + 13 * (M + 1) / 5 + Y + Leaps(Y) + 6) % 7
  }

  /** The days before a month of a common year. */
  const BEFORE := [0, 31, 59, 90, 120, 151, 181, 212, 243, 273, 304, 334]

  function Term(m: int): int { 13 * ((if m <= 2 then m + 12 else m) + 1) / 5 }

  lemma TermIs(m: int) returns (k: int)
    requires 1 <= m <= 12
    ensures BEFORE[m - 1] - Term(m) - (if m <= 2 then 719529 else 719530) == 7 * k
  {
    k := [-102795, -102791, -102783, -102779, -102775, -102771, -102767, -102763, -102759, -102755, -102751,
        -102747][m - 1];
  }

  lemma BeforeIs(y: int, m: int)
    requires 1 <= m <= 12
    ensures MonthStart(y, m) == BEFORE[m - 1] + if m > 2 then One(IsLeap(y)) else 0
  {
    hide IsLeap;
    MonthStarts(y);
    hide MonthStart;
  }

  lemma WeekdayIsZeller(y: int, m: int, d: int)
    requires 1 <= m <= 12
    ensures WeekdayOf(YearStart(y) + MonthStart(y, m) + d - 1) == Zeller(y, m, d)
  {
    YearStartIs(y);
    LeapsNext(y);
    BeforeIs(y, m);
    hide YearStart, MonthStart, Leaps, IsLeap;
    var Y := if m <= 2 then y - 1 else y;
    var a, b := YearStart(y) + MonthStart(y, m) + d - 1 + 4, d + Term(m) + Y + Leaps(Y) + 6;
    var k := TermIs(m);
    // 365 is 1 more than a multiple of 7
    assert a - b == 7 * (52 * y + k);
    ModShift(b, 52 * y + k);
  }

  lemma SameWeekday(a: int, b: int)
    requires (a - b) % 7 == 0
    ensures a % 7 == b % 7
  {
    ModShift(b, (a - b) / 7);
  }

  /** In particular of every reading. */
  lemma ReadingWeekday(t: int, tm: Tm)
    requires Reads(t, tm)
    ensures tm.wday == Zeller(tm.year + 1900, tm.mon + 1, tm.mday)
  {
    hide YearStart, MonthStart, MonthLength, Zeller;
    var y, m := tm.year + 1900, tm.mon + 1;
    WeekdayIsZeller(y, m, tm.mday);
    var days, secs := YearStart(y) + MonthStart(y, m) + tm.mday - 1, 3600 * tm.hour + 60 * tm.min + tm.sec;
    DivIs(t, 86400, days, secs);
    SameWeekday(days + 4, tm.wday);
  }

  // ---- rule dates ----

  /** Day n of a year that does not count February 29 is the same day of the same month in every year. */
  lemma JulianIs(y: int, n: int, secs: int, m: int, d: int)
    requires 1 <= n <= 365 && -604800 < secs < 604800 && 1 <= m <= 12 && 1 <= d <= MONTHS[m - 1]
    ensures RuleDay(y, Julian(n, secs)) == MonthStart(y, m) + d - 1 <==> n == MonthStart(1970, m) + d
  {
    MonthStarts(y); MonthStarts(1970);
    hide MonthStart;
  }

  /** Counted with February 29, days after it move in leap years. */
  lemma DayIs(y: int, n: int, secs: int, m: int, d: int)
    requires 0 <= n <= 365 && -604800 < secs < 604800 && 1 <= m <= 12 && 1 <= d <= MonthLength(y, m)
    ensures RuleDay(y, Day(n, secs)) == MonthStart(y, m) + d - 1 <==>
        n == BEFORE[m - 1] + d - 1 + if m > 2 && IsLeap(y) then 1 else 0
  {
    BeforeIs(y, m);
    hide MonthStart;
  }

  /** What the clock and the calendar show at a time of a given day of a year. */
  predicate Shows(tm: Tm, y: int, yday: int, secs: int) {
    tm.year + 1900 == y && tm.yday == yday && 3600 * tm.hour + 60 * tm.min + tm.sec == secs
  }

  lemma ShowsThat(t: int, tm: Tm, y: int, yday: int, secs: int)
    requires Reads(t, tm) && t == 86400 * (YearStart(y) + yday) + secs && 0 <= yday < YearLength(y) && 0 <= secs < 86400
    ensures Shows(tm, y, yday, secs)
  {
    hide YearStart, MonthStart, MonthLength, YearLength;
    var y', m := tm.year + 1900, tm.mon + 1;
    var days, s := YearStart(y') + MonthStart(y', m) + tm.mday - 1, 3600 * tm.hour + 60 * tm.min + tm.sec;
    DivIs(t, 86400, days, s); DivIs(t, 86400, YearStart(y) + yday, secs);
    InItsYear(y', m, tm.mday);
    YearNext(y);
    YearUnique(days, y, y');
  }

  /** When daylight saving time starts, clocks of standard time show the start of the rule; when it ends, clocks of
      daylight saving time show its end. */
  lemma OnTheClock(r: Rule, y: int, start: Tm, end: Tm)
    requires ValidRule(r) && r.hasDst
    requires Reads(StartOf(r, y) + r.stdOff, start) && Reads(EndOf(r, y) + r.dstOff, end)
    ensures var n := RuleDay(y, r.start);
            n < YearLength(y) && 0 <= r.start.secs < 86400 ==> Shows(start, y, n, r.start.secs)
    ensures var n := RuleDay(y, r.end);
            n < YearLength(y) && 0 <= r.end.secs < 86400 ==> Shows(end, y, n, r.end.secs)
  {
    hide YearStart, Reads, Shows, RuleDay, YearLength;
    RuleDayFrom(y, r.start); RuleDayFrom(y, r.end);
    var a, b := RuleDay(y, r.start), RuleDay(y, r.end);
    if a < YearLength(y) && 0 <= r.start.secs < 86400 {
      ShowsThat(StartOf(r, y) + r.stdOff, start, y, a, r.start.secs);
    }
    if b < YearLength(y) && 0 <= r.end.secs < 86400 { ShowsThat(EndOf(r, y) + r.dstOff, end, y, b, r.end.secs); }
  }

  lemma RuleDayFrom(y: int, d: RuleDate)
    requires ValidDate(d)
    ensures RuleDay(y, d) >= 0
  {
    if d.Weekday? {
      DayOfMonthIs(y, d.m, d.w, d.d);
      MonthStarts(y);
      hide MonthStart, DayOfMonth;
      assert NthWeekday(y, d.m, d.w, d.d, DayOfMonth(y, d.m, d.w, d.d));
    }
  }

  /** From 1970 on, between the start and the end of a year daylight saving time is in force, and outside it is
      not; where the end comes first, it is the other way round. */
  lemma InForce(r: Rule, y: int, t: int)
    requires ValidRule(r) && r.hasDst && y >= 1970 && YearStart(y) <= (t + r.stdOff) / 86400 < YearStart(y + 1)
    ensures var s, e, k := StartOf(r, y), EndOf(r, y), RuleZone(r)(t);
            && (s <= t < e ==> k == Kind(r.dstOff, true))
            && (e <= t < s ==> k == Kind(r.stdOff, false))
            && (s < e && !(s <= t < e) ==> k == Kind(r.stdOff, false))
            && (e < s && !(e <= t < s) ==> k == Kind(r.dstOff, true))
  {
    hide YearStart, StartOf, EndOf, InDst;
    ByYear(r, t, y);
  }

  // ---- which time `mktime` takes ----

  /** Times of a kind are looked at. */
  ghost predicate Sampled(z: Zone, L: int, want: bool) { exists i: nat :: i < 5 && z(Sample(L, i)).dst == want }

  /** A given flag is obeyed: the local time is read as that kind of time, in force or not. */
  lemma FlagObeyed(r: Rule, L: int, want: bool)
    requires ValidRule(r) && Sampled(RuleZone(r), L, want)
    ensures OffsetOfKind(RuleZone(r), L, want) == Offset(r, want)
  {
    hide First, InDst, Types, Consistent, FarOffset;
    var z := RuleZone(r);
    var ts := Types(z, L);
    RuleTypes(r, L);
    FirstHas(ts, FittingKind(z, L, want)); FirstHas(ts, OfKind(want));
    if First(ts, OfKind(want)) == |ts| { NotAmong(z, L, want); }
  }

  /** Without daylight saving time, asking for it is asking for an hour earlier. */
  lemma NoneToObey(r: Rule, L: int)
    requires ValidRule(r) && !r.hasDst
    ensures OffsetOfKind(RuleZone(r), L, false) == r.stdOff && OffsetOfKind(RuleZone(r), L, true) == r.stdOff + 3600
  {
    hide First, Types, Consistent, InDst, FindFrom;
    var z := RuleZone(r);
    var ts := Types(z, L);
    TypesSome(z, L);
    RuleTypes(r, L);
    AlwaysStandard(r);
    assert !z(Sample(L, 0)).dst;
    FlagObeyed(r, L, false);
    forall k | k in ts ensures !k.dst { SampleOf(z, L, k); }
    FirstHas(ts, FittingKind(z, L, true)); FirstHas(ts, OfKind(true));
    NowhereFound(z, L - r.stdOff, 0);
  }

  lemma AlwaysStandard(r: Rule)
    requires ValidRule(r) && !r.hasDst
    ensures forall x: int :: RuleZone(r)(x) == Kind(r.stdOff, false)
  {
  }

  lemma {:induction false} NowhereFound(z: Zone, t: int, n: nat)
    requires n <= 25 && forall x: int :: !z(x).dst
    ensures FindFrom(z, t, true, n).None?
    decreases 25 - n
  {
    if n < 25 { NowhereFound(z, t, n + 1); }
  }

  /** Where both kinds are near and the flag is unknown: a local time that standard time shows is standard time, one
      that only daylight saving time shows is that, and one that no clock shows is read with the smaller offset. */
  lemma UnknownFlag(r: Rule, L: int, off: int)
    requires ValidRule(r) && OffsetOfAny(RuleZone(r), L, off)
    requires Sampled(RuleZone(r), L, false) && Sampled(RuleZone(r), L, true)
    ensures var z, std, dst := RuleZone(r), Offset(r, false), Offset(r, true);
            off == if z(L - std).off == std then std else if z(L - dst).off == dst then dst
                else if std <= dst then std else dst
  {
    hide First, InDst, Types;
    var z, std, dst := RuleZone(r), Kind(Offset(r, false), false), Kind(Offset(r, true), true);
    var ts := Types(z, L);
    RuleTypes(r, L);
    Listed(r, L, false); Listed(r, L, true);
    FirstHas(ts, FittingKind(z, L, false)); FirstHas(ts, Fitting(z, L));
    if First(ts, FittingKind(z, L, false)) == |ts| { NoSuch(ts, FittingKind(z, L, false), std); }
    if First(ts, Fitting(z, L)) == |ts| { NoSuch(ts, Fitting(z, L), dst); }
  }

  lemma Listed(r: Rule, L: int, want: bool)
    requires ValidRule(r) && Sampled(RuleZone(r), L, want)
    ensures Kind(Offset(r, want), want) in Types(RuleZone(r), L)
  {
    hide InDst, Types;
    var i: nat :| i < 5 && RuleZone(r)(Sample(L, i)).dst == want;
    IsAmong(RuleZone(r), L, i);
  }
}
