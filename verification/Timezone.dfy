/** Zones given by a POSIX TZ rule, src/tz.c: when daylight saving time is in force. */
module Timezone {
  import opened Basics
  import opened Calendar

  /** A rule date: the n-th day of the year with or without counting February 29, or the w-th weekday d
      of month m (5 for the last); and a time of day on it. */
  datatype RuleDate = Julian(n: int, secs: int) | Day(n: int, secs: int) | Weekday(m: int, w: int, d: int, secs: int)

  predicate ValidDate(d: RuleDate) {
    && -604800 < d.secs < 604800
    && match d
       case Julian(n, _) => 1 <= n <= 365
       case Day(n, _) => 0 <= n <= 365
       case Weekday(m, w, wd, _) => 1 <= m <= 12 && 1 <= w <= 5 && 0 <= wd <= 6
  }

  /** Offsets are east of Greenwich. Without an offset of its own, daylight saving time is an hour ahead
      of standard time. */
  datatype Rule = Rule(stdOff: int, hasDst: bool, dstOff: int, start: RuleDate, end: RuleDate)

  predicate ValidRule(r: Rule) {
    -86400 <= r.stdOff <= 86400 && (r.hasDst ==> -86400 <= r.dstOff <= 90000 && ValidDate(r.start) && ValidDate(r.end))
  }

  // ---- rule dates ----

  /** The day of the week, from Sunday, of a day since 1970. */
  function WeekdayOf(days: int): int { (days + 4) % 7 }

  /** mday is the w-th weekday wd of a month, or the last one. */
  predicate NthWeekday(y: int, m: int, w: int, wd: int, mday: int)
    requires 1 <= m <= 12
  {
    && 1 <= mday <= MonthLength(y, m) && WeekdayOf(YearStart(y) + MonthStart(y, m) + mday - 1) == wd
    && (if w < 5 then 7 * (w - 1) < mday <= 7 * w else mday + 7 > MonthLength(y, m))
  }

  function DayOfMonth(y: int, m: int, w: int, wd: int): int
    requires 1 <= m <= 12
  {
    var delta := (wd - WeekdayOf(YearStart(y) + MonthStart(y, m))) % 7;
    var mday := 1 + delta + 7 * (w - 1);
    if mday > MonthLength(y, m) then mday - 7 else mday
  }

  /** There is one such day. */
  lemma OneWeekday(y: int, m: int, w: int, wd: int, a: int, b: int)
    requires 1 <= m <= 12 && NthWeekday(y, m, w, wd, a) && NthWeekday(y, m, w, wd, b)
    ensures a == b
  {
    hide YearStart, MonthStart, MonthLength;
    assert (a - b) % 7 == 0;
  }

  /** The day worked out is that day. */
  lemma DayOfMonthIs(y: int, m: int, w: int, wd: int)
    requires 1 <= m <= 12 && 1 <= w <= 5 && 0 <= wd <= 6
    ensures forall d :: NthWeekday(y, m, w, wd, d) <==> d == DayOfMonth(y, m, w, wd)
  {
    hide YearStart, MonthStart, MonthLength, WeekdayOf;
    var first := YearStart(y) + MonthStart(y, m);
    var delta := (wd - WeekdayOf(first)) % 7;
    NextWeekday(first, wd);
    FromFirst(y, m, w, wd, delta, if 1 + delta + 7 * (w - 1) > MonthLength(y, m) then w - 2 else w - 1);
    forall d | NthWeekday(y, m, w, wd, d) ensures d == DayOfMonth(y, m, w, wd) {
      OneWeekday(y, m, w, wd, d, DayOfMonth(y, m, w, wd));
    }
  }

  lemma FromFirst(y: int, m: int, w: int, wd: int, delta: int, k: int)
    requires 1 <= m <= 12 && 1 <= w <= 5 && 0 <= delta < 7 && WeekdayOf(YearStart(y) + MonthStart(y, m) + delta) == wd
    requires k == if 1 + delta + 7 * (w - 1) > MonthLength(y, m) then w - 2 else w - 1
    ensures NthWeekday(y, m, w, wd, 1 + delta + 7 * k)
  {
    hide YearStart, MonthStart, MonthLength, WeekdayOf;
    LengthRange(y, m);
    WhichWeek(w, delta, MonthLength(y, m), k);
    var first, mday := YearStart(y) + MonthStart(y, m), 1 + delta + 7 * k;
    WeeksLater(first + delta, k);
    assert first + mday - 1 == first + delta + 7 * k;
  }

  lemma WhichWeek(w: int, delta: int, len: int, k: int)
    requires 1 <= w <= 5 && 0 <= delta < 7 && 28 <= len <= 31
        && k == if 1 + delta + 7 * (w - 1) > len then w - 2 else w - 1
    ensures var mday := 1 + delta + 7 * k;
            1 <= mday <= len && if w < 5 then 7 * (w - 1) < mday <= 7 * w else mday + 7 > len
  {
  }

  lemma NextWeekday(first: int, wd: int)
    requires 0 <= wd <= 6
    ensures WeekdayOf(first + (wd - WeekdayOf(first)) % 7) == wd
  {
  }

  lemma WeeksLater(day: int, k: int)
    ensures WeekdayOf(day + 7 * k) == WeekdayOf(day)
  {
    DivIs(day + 7 * k + 4, 7, (day + 4) / 7 + k, (day + 4) % 7);
  }

  lemma LengthRange(y: int, m: int)
    requires 1 <= m <= 12
    ensures 28 <= MonthLength(y, m) <= 31
  {
  }

  /** The day of the year, from 0, of a rule date. */
  function RuleDay(y: int, d: RuleDate): int
    requires ValidDate(d)
  {
    match d
    case Julian(n, _) => n - 1 + One(IsLeap(y) && n >= 60)
    case Day(n, _) => n
    case Weekday(m, w, wd, _) => MonthStart(y, m) + DayOfMonth(y, m, w, wd) - 1
  }

  /** Seconds of local time from the start of the year. */
  function RuleTime(y: int, d: RuleDate): int
    requires ValidDate(d)
  {
    RuleDay(y, d) * 86400 + d.secs
  }

  /** `rule_time`. */
  method RuleTimeOf(year: int, d: RuleDate) returns (secs: int)
    requires ValidDate(d)
    ensures secs == RuleTime(year, d)
  {
    hide YearStart, MonthStart, MonthLength, DaysFromCivil;
    var day;
    match d {
      case Julian(n, _) =>
        day := n - 1;
        if IsLeap(year) && n >= 60 { day := day + 1; }
      case Day(n, _) =>
        day := n;
      case Weekday(m, w, wd, _) =>
        var first, jan1 := DaysFromCivil(year, m, 1), DaysFromCivil(year, 1, 1);
        DaysFromCivilIs(year, m, 1); DaysFromCivilIs(year, 1, 1); FirstMonth(year);
        var wdFirst := CMod(CMod(first, 7) + 7 + 4, 7);
        FirstWeekday(first);
        var delta := CMod(wd - wdFirst + 7, 7);
        var mday := 1 + delta + 7 * (w - 1);
        LengthRange(year, m);
        var len := MonthLength(year, m);
        while mday > len
          invariant DayOfMonth(year, m, w, wd) == if mday > len then mday - 7 else mday
          invariant mday <= 35
          decreases mday
        {
          mday := mday - 7;
        }
        day := first - jan1 + mday - 1;
    }
    secs := day * 86400 + d.secs;
  }

  lemma FirstWeekday(first: int)
    ensures CMod(CMod(first, 7) + 7 + 4, 7) == WeekdayOf(first)
  {
    var x := CMod(first, 7);
    assert -7 < x < 7 && (first - x) % 7 == 0;
  }

  // ---- rule_lookup ----

  /** When daylight saving time starts and ends in a year, in UTC. */
  function StartOf(r: Rule, y: int): int
    requires ValidRule(r) && r.hasDst
  {
    YearStart(y) * 86400 + RuleTime(y, r.start) - r.stdOff
  }

  function EndOf(r: Rule, y: int): int
    requires ValidRule(r) && r.hasDst
  {
    YearStart(y) * 86400 + RuleTime(y, r.end) - r.dstOff
  }

  /** The calendar year of a day. */
  function CalendarYear(days: int): int { DateOf(days).0 }

  lemma CalendarYearIs(days: int)
    ensures YearStart(CalendarYear(days)) <= days < YearStart(CalendarYear(days) + 1)
  {
    hide DateOf, YearStart, MonthStart, MonthLength;
    DateOfIs(days);
    var (y, m, d) := DateOf(days);
    InItsYear(y, m, d);
  }

  /** Whether daylight saving time is in force at t, by the rule for the year of t in standard time.
      Before 1970 it is as it was when 1970 began. */
  predicate InDst(r: Rule, t: int)
    requires ValidRule(r)
  {
    r.hasDst &&
    var y := CalendarYear((t + r.stdOff) / 86400);
    if y < 1970 then StartOf(r, 1970) > EndOf(r, 1970) else InYear(r, y, t)
  }

  predicate InYear(r: Rule, y: int, t: int)
    requires ValidRule(r) && r.hasDst
  {
    var start, end := StartOf(r, y), EndOf(r, y);
    if start < end then start <= t < end else !(end <= t < start)
  }

  function Offset(r: Rule, dst: bool): int { if dst then r.dstOff else r.stdOff }

  lemma ByYear(r: Rule, t: int, y: int)
    requires ValidRule(r) && r.hasDst && YearStart(y) <= (t + r.stdOff) / 86400 < YearStart(y + 1)
    ensures InDst(r, t) == if y < 1970 then StartOf(r, 1970) > EndOf(r, 1970) else InYear(r, y, t)
  {
    hide YearStart, CalendarYear, StartOf, EndOf, InYear, ValidDate;
    var days := (t + r.stdOff) / 86400;
    CalendarYearIs(days);
    YearUnique(days, y, CalendarYear(days));
  }

  /** `rule_lookup`: the year is estimated and then corrected. */
  method RuleLookup(r: Rule, t: int) returns (off: int, isdst: bool)
    requires ValidRule(r)
    ensures isdst == InDst(r, t) && off == Offset(r, isdst)
  {
    off, isdst := r.stdOff, false;
    if !r.hasDst { return; }
    hide YearStart, InDst, StartOf, EndOf, ValidRule;
    var days := DayNumber(t + r.stdOff);
    var y := YearFor(days);
    ByYear(r, t, y);
    var pre := y < 1970;
    if pre { y := 1970; }
    var start, end := Transitions(r, y);
    isdst := if pre then start > end else if start < end then t >= start && t < end else !(t >= end && t < start);
    if isdst { off := r.dstOff; }
  }

  /** The transitions of a year: the start is given in standard time, the end in daylight saving time. */
  method Transitions(r: Rule, y: int) returns (start: int, end: int)
    requires ValidRule(r) && r.hasDst
    ensures start == StartOf(r, y) && end == EndOf(r, y)
  {
    hide YearStart, RuleTime, DaysFromCivil, ValidDate;
    var y0 := DaysFromCivil(y, 1, 1) * 86400;
    JanuaryFirst(y);
    start := RuleTimeOf(y, r.start);
    start := y0 + start - r.stdOff;
    end := RuleTimeOf(y, r.end);
    end := y0 + end - r.dstOff;
  }

  method DayNumber(t: int) returns (days: int)
    ensures days == t / 86400
  {
    hide CDiv, CMod;
    days := CDiv(t, 86400) - One(CMod(t, 86400) < 0);
    DayAndRest(t);
  }

  method YearFor(days: int) returns (y: int)
    ensures YearStart(y) <= days < YearStart(y + 1)
  {
    hide YearStart, CDiv, DaysFromCivil;
    y := 1970 + if days >= 0 then CDiv(days * 400, 146097) else CDiv(days * 400 - 146096, 146097);
    JanuaryFirst(y + 1);
    while DaysFromCivil(y + 1, 1, 1) <= days
      decreases days - YearStart(y)
      invariant DaysFromCivil(y + 1, 1, 1) == YearStart(y + 1)
    {
      YearNext(y);
      y := y + 1;
      JanuaryFirst(y + 1);
    }
    JanuaryFirst(y);
    while DaysFromCivil(y, 1, 1) > days
      decreases YearStart(y) - days
      invariant DaysFromCivil(y, 1, 1) == YearStart(y) && days < YearStart(y + 1)
    {
      y := y - 1;
      YearNext(y);
      JanuaryFirst(y);
    }
  }

  lemma JanuaryFirst(y: int)
    ensures DaysFromCivil(y, 1, 1) == YearStart(y)
  {
    hide YearStart, DaysFromCivil;
    DaysFromCivilIs(y, 1, 1); FirstMonth(y);
  }
}
