/** `localtime` and `mktime`, src/timeconv.c: local time in any zone, and in the zone of a POSIX TZ rule. */
module Mktime {
  import opened Basics
  import opened Calendar
  import opened Timezone

  /** A local time type: the offset from UTC and whether it is daylight saving time. */
  datatype Kind = Kind(off: int, dst: bool)

  /** What `__tz_lookup` says of each time. */
  type Zone = int -> Kind

  // ---- localtime ----

  const FAR := 0x1000_0000_0000_0000

  /** Broken-down local time with its flag. */
  datatype Local = Local(tm: Tm, dst: bool)

  function LocalTime(z: Zone, t: int): Option<Local> {
    if t < -FAR || t > FAR then None
    else
      var tm := SecsToTm(t + z(t).off);
      if tm.None? then None else Some(Local(tm.value, z(t).dst))
  }

  // ---- mktime ----

  /** The types in effect a day apart from two days before L, each once, from the n-th on. */
  function TypesUpTo(z: Zone, L: int, n: nat): (ts: seq<Kind>)
    ensures n > 0 ==> |ts| > 0
  {
    if n == 0 then []
    else
      var ts, k := TypesUpTo(z, L, n - 1), z(L + (n - 3) * 86400);
      if k in ts then ts else ts + [k]
  }

  function Types(z: Zone, L: int): seq<Kind> { TypesUpTo(z, L, 5) }

  /** Reading L with type k, k is in effect. */
  predicate Consistent(z: Zone, L: int, k: Kind) { z(L - k.off).off == k.off }

  function OfKind(want: bool): Kind -> bool { (k: Kind) => k.dst == want }

  function Fitting(z: Zone, L: int): Kind -> bool { (k: Kind) => Consistent(z, L, k) }

  function FittingKind(z: Zone, L: int, want: bool): Kind -> bool { (k: Kind) => k.dst == want && Consistent(z, L, k) }

  /** The first type with a property, or the number of types. */
  function First(ts: seq<Kind>, p: Kind -> bool): (i: nat)
    ensures i <= |ts| && (i < |ts| ==> p(ts[i])) && forall j | 0 <= j < i :: !p(ts[j])
    decreases |ts|
  {
    if ts == [] then 0
    else if p(ts[0]) then 0
    else
      var i := First(ts[1..], p);
      assert forall j | 0 < j < i + 1 :: ts[j] == ts[1..][j - 1];
      i + 1
  }

  /** `find_kind`: probing outward from t in steps of 15 days, from the n-th step on. */
  function FindFrom(z: Zone, t: int, want: bool, n: nat): Option<int>
    requires n <= 25
    decreases 25 - n
  {
    if n == 25 then None
    else if z(t - n * 1296000).dst == want then Some(z(t - n * 1296000).off)
    else if z(t + n * 1296000).dst == want then Some(z(t + n * 1296000).off)
    else FindFrom(z, t, want, n + 1)
  }

  /** Without a type of the wanted kind nearby: one further off, or an hour more or less. */
  function FarOffset(z: Zone, L: int, want: bool, k0: Kind): int {
    var k := z(L - k0.off);
    var found := FindFrom(z, L - k.off, want, 0);
    if found.Some? then found.value else k.off + (if want then 3600 else -3600) * (if k.dst == want then 0 else 1)
  }

  /** The offset to read L with when the kind is given: that of a consistent type of that kind, else of
      any type of that kind. */
  function OffsetOfKind(z: Zone, L: int, want: bool): int {
    var ts := Types(z, L);
    var i := First(ts, FittingKind(z, L, want));
    if i < |ts| then ts[i].off
    else
      var j := First(ts, OfKind(want));
      if j < |ts| then ts[j].off else FarOffset(z, L, want, ts[0])
  }

  /** The first type with the smallest offset. */
  predicate Smallest(ts: seq<Kind>, i: nat) {
    && i < |ts| && (forall j | 0 <= j < |ts| :: ts[i].off <= ts[j].off)
        && (forall j | 0 <= j < i :: ts[i].off < ts[j].off)
  }

  /** The offset to read L with when the kind is not given: that of a consistent type, rather one of
      standard time; else the smallest. */
  ghost predicate OffsetOfAny(z: Zone, L: int, off: int) {
    var ts := Types(z, L);
    var i := First(ts, FittingKind(z, L, false));
    var j := First(ts, Fitting(z, L));
    if i < |ts| then off == ts[i].off
    else if j < |ts| then off == ts[j].off
    else exists k: nat :: Smallest(ts, k) && off == ts[k].off
  }

  method Collect(z: Zone, L: int) returns (ts: seq<Kind>)
    ensures ts == Types(z, L)
  {
    ts := [];
    for n := 0 to 5
      invariant ts == TypesUpTo(z, L, n)
    {
      var k := z(L + (n - 2) * 86400);
      var seen := false;
      for i := 0 to |ts|
        invariant seen <==> k in ts[..i]
      {
        seen := seen || ts[i] == k;
        assert ts[..i + 1] == ts[..i] + [ts[i]];
      }
      assert ts[..|ts|] == ts;
      if !seen { ts := ts + [k]; }
    }
  }

  /** n steps of 15 days before or after t the wanted kind of time is in force. */
  predicate InReach(z: Zone, t: int, want: bool, n: nat) {
    z(t - n * 1296000).dst == want || z(t + n * 1296000).dst == want
  }

  /** r is the offset of the wanted kind the fewest steps from t, before t rather than after, and None
      if fewer than 25 steps reach none. */
  ghost predicate Nearest(z: Zone, t: int, want: bool, r: Option<int>) {
    if r.None? then forall n: nat | n < 25 :: !InReach(z, t, want, n)
    else
      exists n: nat ::
        && n < 25 && InReach(z, t, want, n) && (forall i: nat | i < n :: !InReach(z, t, want, i))
        && r.value == if z(t - n * 1296000).dst == want then z(t - n * 1296000).off else z(t + n * 1296000).off
  }

  method FindKind(z: Zone, t: int, want: bool) returns (r: Option<int>)
    ensures Nearest(z, t, want, r) && r == FindFrom(z, t, want, 0)
  {
    hide FindFrom;
    var n: nat := 0;
    while n < 25
      invariant n <= 25 && FindFrom(z, t, want, 0) == FindFrom(z, t, want, n)
      invariant forall i: nat | i < n :: !InReach(z, t, want, i)
    {
      FindStep(z, t, want, n);
      var d := n * 1296000;
      if z(t - d).dst == want {
        assert InReach(z, t, want, n);
        return Some(z(t - d).off);
      }
      if z(t + d).dst == want {
        assert InReach(z, t, want, n);
        return Some(z(t + d).off);
      }
      n := n + 1;
    }
    FindStep(z, t, want, 25);
    r := None;
  }

  lemma FindStep(z: Zone, t: int, want: bool, n: nat)
    requires n <= 25
    ensures FindFrom(z, t, want, n) ==
            if n == 25 then None
            else if z(t - n * 1296000).dst == want then Some(z(t - n * 1296000).off)
            else if z(t + n * 1296000).dst == want then Some(z(t + n * 1296000).off)
            else FindFrom(z, t, want, n + 1)
  {
  }

  method ChooseKind(z: Zone, L: int, want: bool) returns (off: int)
    ensures off == OffsetOfKind(z, L, want)
  {
    hide First, Types, FindFrom, Consistent;
    TypesSome(z, L);
    var ty := Collect(z, L);
    var found;
    off, found := ScanKind(z, L, ty, want);
    if found == 0 {
      var k0 := z(L - ty[0].off);
      var far := FindKind(z, L - k0.off, want);
      off := if far.Some? then far.value
          else k0.off + (if want then 3600 else -3600) * (if k0.dst == want then 0 else 1);
    }
  }

  lemma TypesSome(z: Zone, L: int)
    ensures |Types(z, L)| > 0
  {
  }

  /** found is 1 with some type of the wanted kind, 2 with a consistent one. */
  method ScanKind(z: Zone, L: int, ty: seq<Kind>, want: bool) returns (off: int, found: int)
    requires |ty| > 0
    ensures 0 <= found <= 2
    ensures var i, j := First(ty, FittingKind(z, L, want)), First(ty, OfKind(want));
            if i < |ty| then found == 2 && off == ty[i].off
                else if j < |ty| then found == 1 && off == ty[j].off else found == 0
  {
    hide First, Consistent;
    off, found := ty[0].off, 0;
    var i: nat := 0;
    ghost var p, q := FittingKind(z, L, want), OfKind(want);
    while i < |ty| && found < 2
      invariant i <= |ty| && 0 <= found <= 2
      invariant found < 2 ==> NoneBefore(ty, p, i)
      invariant if found == 0 then NoneBefore(ty, q, i)
          else found == 2 || (First(ty, q) < |ty| && off == ty[First(ty, q)].off)
      invariant found == 2 ==> First(ty, p) < |ty| && off == ty[First(ty, p)].off
    {
      var fits := z(L - ty[i].off).off == ty[i].off;
      assert fits == Consistent(z, L, ty[i]) by { ConsistentIs(z, L, ty[i]); }
      if ty[i].dst == want {
        if fits || found == 0 {
          if found == 0 { FirstIs(ty, q, i); }
          if fits { FirstIs(ty, p, i); }
          off := ty[i].off;
          found := if fits then 2 else 1;
        }
      }
      i := i + 1;
    }
    if found < 2 { FirstNone(ty, p); }
    if found == 0 { FirstNone(ty, q); }
  }

  predicate NoneBefore(ts: seq<Kind>, p: Kind -> bool, i: nat) { forall j | 0 <= j < i && j < |ts| :: !p(ts[j]) }

  lemma ConsistentIs(z: Zone, L: int, k: Kind)
    ensures Consistent(z, L, k) == (z(L - k.off).off == k.off)
  {
  }

  lemma FirstNone(ts: seq<Kind>, p: Kind -> bool)
    requires NoneBefore(ts, p, |ts|)
    ensures First(ts, p) == |ts|
  {
  }

  lemma FirstIs(ts: seq<Kind>, p: Kind -> bool, i: nat)
    requires i < |ts| && p(ts[i]) && NoneBefore(ts, p, i)
    ensures First(ts, p) == i
  {
  }

  method ChooseAny(z: Zone, L: int) returns (off: int)
    ensures OffsetOfAny(z, L, off)
  {
    hide First, Types, Consistent;
    TypesSome(z, L);
    var ty := Collect(z, L);
    var best := -1;
    ghost var p, q := Fitting(z, L), FittingKind(z, L, false);
    for i := 0 to |ty|
      invariant -1 <= best < i
      invariant if best < 0 then NoneBefore(ty, p, i) else First(ty, p) < |ty|
      invariant best < 0 || ty[best].dst ==> NoneBefore(ty, q, i)
      invariant best >= 0 ==> best == First(ty, if ty[best].dst then p else q)
    {
      ConsistentIs(z, L, ty[i]);
      if z(L - ty[i].off).off == ty[i].off {
        if best < 0 || (ty[best].dst && !ty[i].dst) {
          if best < 0 { FirstIs(ty, p, i); }
          if !ty[i].dst { FirstIs(ty, q, i); }
          best := i;
        }
      }
    }
    if best < 0 { FirstNone(ty, p); }
    if best < 0 || ty[best].dst { FirstNone(ty, q); }
    if best < 0 {
      best := LeastOffset(ty);
      assert Smallest(ty, best);
    }
    off := ty[best].off;
  }

  method LeastOffset(ty: seq<Kind>) returns (best: nat)
    requires |ty| > 0
    ensures Smallest(ty, best)
  {
    best := 0;
    for i := 1 to |ty|
      invariant best < i
      invariant forall j | 0 <= j < i :: ty[best].off <= ty[j].off
      invariant forall j | 0 <= j < best :: ty[best].off < ty[j].off
    {
      if ty[i].off < ty[best].off { best := i; }
    }
  }

  /** The time tt and its broken-down form. */
  function Result(z: Zone, tt: int): Option<(int, Local)> {
    var n := LocalTime(z, tt);
    if n.None? then None else Some((tt, n.value))
  }

  /** `mktime`: the fields may be out of range, the flag may be unknown. */
  method MktimeOf(z: Zone, tm: Tm, isdst: int) returns (r: Option<(int, Local)>)
    ensures TmToSecs(tm).None? ==> r.None?
    ensures TmToSecs(tm).Some? && isdst >= 0 ==>
        var L := TmToSecs(tm).value; r == Result(z, L - OffsetOfKind(z, L, isdst > 0))
    ensures TmToSecs(tm).Some? && isdst < 0 ==>
        var L := TmToSecs(tm).value; exists off: int :: OffsetOfAny(z, L, off) && r == Result(z, L - off)
  {
    hide OffsetOfKind, OffsetOfAny, TmToSecs, Result, LocalTime;
    var l := TmToSecs(tm);
    if l.None? { return None; }
    var L := l.value;
    var off;
    if isdst >= 0 { off := ChooseKind(z, L, isdst > 0); } else { off := ChooseAny(z, L); }
    var n := LocalTime(z, L - off);
    ResultIs(z, L - off);
    r := if n.None? then None else Some((L - off, n.value));
  }

  lemma ResultIs(z: Zone, tt: int)
    ensures Result(z, tt) == var n := LocalTime(z, tt); if n.None? then None else Some((tt, n.value))
  {
    hide LocalTime;
  }

  // ---- a local time that exists is read as itself ----

  lemma {:induction false} TypesAre(z: Zone, L: int, n: nat, k: Kind)
    ensures k in TypesUpTo(z, L, n) <==> exists i: nat :: i < n && z(Sample(L, i)) == k
  {
    if n > 0 {
      TypesAre(z, L, n - 1, k);
      assert Sample(L, n - 1) == L + (n - 3) * 86400;
    }
  }

  /** The i-th time that `mktime` looks at. */
  function Sample(L: int, i: nat): int { L + (i - 2) * 86400 }

  /** With an unknown flag, a local time that some type nearby gives is given back by the result. */
  lemma AnyConsistent(z: Zone, L: int, off: int, i: nat)
    requires OffsetOfAny(z, L, off) && i < 5 && Consistent(z, L, z(Sample(L, i)))
    ensures L - off + z(L - off).off == L
  {
    hide First;
    var ts := Types(z, L);
    var k := z(Sample(L, i));
    TypesAre(z, L, 5, k);
    var j: nat :| j < |ts| && ts[j] == k;
    FirstAtMost(ts, Fitting(z, L), j);
    FirstHas(ts, Fitting(z, L)); FirstHas(ts, FittingKind(z, L, false));
  }

  lemma FirstAtMost(ts: seq<Kind>, p: Kind -> bool, j: nat)
    requires j < |ts| && p(ts[j])
    ensures First(ts, p) <= j
  {
  }

  lemma FirstHas(ts: seq<Kind>, p: Kind -> bool)
    ensures First(ts, p) < |ts| ==> p(ts[First(ts, p)])
  {
  }

  // ---- the zone of a rule ----

  function KindAt(r: Rule, t: int): Kind
    requires ValidRule(r)
  {
    Kind(Offset(r, InDst(r, t)), InDst(r, t))
  }

  function RuleZone(r: Rule): Zone
    requires ValidRule(r)
  {
    (t: int) => KindAt(r, t)
  }

  /** Some sample has the wanted kind, or `find_kind` finds it. */
  ghost predicate Seen(z: Zone, L: int, want: bool) {
    || (exists i: nat :: i < 5 && z(Sample(L, i)).dst == want)
    || FindFrom(z, L - z(L - z(Sample(L, 0)).off).off, want, 0).Some?
  }

  /** Reading t's local time with t's own flag gives t's offset: exactly when its kind is seen, or when
      daylight saving time is an hour ahead. */
  lemma OwnOffset(r: Rule, t: int)
    requires ValidRule(r)
    ensures var z := RuleZone(r); var k := z(t); var L := t + k.off;
            OffsetOfKind(z, L, k.dst) == k.off <==> Seen(z, L, k.dst) || r.dstOff == r.stdOff + 3600
  {
    hide First, InDst, FindFrom, Types, Consistent;
    var z := RuleZone(r);
    var want := z(t).dst;
    var L := t + z(t).off;
    var ts := Types(z, L);
    TypesSome(z, L);
    var i, j := First(ts, FittingKind(z, L, want)), First(ts, OfKind(want));
    FirstHas(ts, FittingKind(z, L, want)); FirstHas(ts, OfKind(want));
    RuleTypes(r, L);
    if j < |ts| {
      SampleOf(z, L, ts[j]);
      if i < |ts| { SampleOf(z, L, ts[i]); }
    } else {
      NotAmong(z, L, want);
      FarAway(r, t, ts[0]);
      FirstSample(z, L);
    }
  }

  lemma FirstSample(z: Zone, L: int)
    ensures |Types(z, L)| > 0 && Types(z, L)[0] == z(Sample(L, 0))
  {
    assert TypesUpTo(z, L, 1) == [z(L + (1 - 3) * 86400)];
    StartKept(z, L, 1); StartKept(z, L, 2); StartKept(z, L, 3); StartKept(z, L, 4);
  }

  lemma StartKept(z: Zone, L: int, n: nat)
    requires n > 0
    ensures TypesUpTo(z, L, n)[0] == TypesUpTo(z, L, n + 1)[0]
  {
  }

  /** Each kind has its one offset. */
  lemma RuleTypes(r: Rule, L: int)
    requires ValidRule(r)
    ensures forall k | k in Types(RuleZone(r), L) :: k.off == Offset(r, k.dst)
  {
    hide InDst;
    var z := RuleZone(r);
    forall k | k in Types(z, L) ensures k.off == Offset(r, k.dst) {
      TypesAre(z, L, 5, k);
    }
  }

  lemma SampleOf(z: Zone, L: int, k: Kind)
    requires k in Types(z, L)
    ensures exists i: nat :: i < 5 && z(Sample(L, i)).dst == k.dst
  {
    TypesAre(z, L, 5, k);
    var i: nat :| i < 5 && z(Sample(L, i)) == k;
    assert z(Sample(L, i)).dst == k.dst;
  }

  lemma NotAmong(z: Zone, L: int, want: bool)
    requires First(Types(z, L), OfKind(want)) == |Types(z, L)|
    ensures !exists i: nat :: i < 5 && z(Sample(L, i)).dst == want
  {
    hide Types;
    forall i: nat | i < 5 ensures z(Sample(L, i)).dst != want {
      IsAmong(z, L, i);
      NoSuch(Types(z, L), OfKind(want), z(Sample(L, i)));
    }
  }

  lemma NoSuch(ts: seq<Kind>, p: Kind -> bool, k: Kind)
    requires First(ts, p) == |ts| && k in ts
    ensures !p(k)
  {
    var j: nat :| j < |ts| && ts[j] == k;
  }

  lemma IsAmong(z: Zone, L: int, i: nat)
    requires i < 5
    ensures z(Sample(L, i)) in Types(z, L)
  {
    TypesAre(z, L, 5, z(Sample(L, i)));
  }

  lemma FarAway(r: Rule, t: int, k0: Kind)
    requires ValidRule(r)
    requires var z := RuleZone(r); k0.off == Offset(r, k0.dst) && k0.dst != z(t).dst
    ensures var z := RuleZone(r); var k := z(t); var L := t + k.off;
    var found := FindFrom(z, L - z(L - k0.off).off, k.dst, 0);
            FarOffset(z, L, k.dst, k0) == k.off <==> found.Some? || r.dstOff == r.stdOff + 3600
  {
    hide InDst, FindFrom;
    var z := RuleZone(r);
    var want := z(t).dst;
    var L := t + z(t).off;
    var k := z(L - k0.off);
    FoundOffset(r, L - k.off, want, 0);
    if k.dst == want {
      assert L - k.off == t;
      FindStep(z, t, want, 0);
    }
  }

  lemma {:induction false} FoundOffset(r: Rule, t: int, want: bool, n: nat)
    requires ValidRule(r) && n <= 25
    ensures var f := FindFrom(RuleZone(r), t, want, n); f.Some? ==> f.value == Offset(r, want)
    decreases 25 - n
  {
    hide InDst;
    if n < 25 { FoundOffset(r, t, want, n + 1); }
  }

  /** `mktime` inverts `localtime` in the zone of a rule, for exactly these times. */
  lemma MktimeInverts(r: Rule, t: int)
    requires ValidRule(r) && LocalTime(RuleZone(r), t).Some?
    ensures var z := RuleZone(r); var lt := LocalTime(z, t).value; var L := TmToSecs(lt.tm);
            && L == Some(t + z(t).off)
            && (Result(z, L.value - OffsetOfKind(z, L.value, lt.dst)) == Some((t, lt)) <==>
                Seen(z, L.value, lt.dst) || r.dstOff == r.stdOff + 3600)
  {
    hide InDst, OffsetOfKind, Seen, SecsToTm, TmToSecs;
    var z := RuleZone(r);
    SecsRoundTrip(t + z(t).off);
    OwnOffset(r, t);
  }

  /** Daylight saving time of two hours a year, on April 10, two hours ahead. */
  const TWO_HOURS := Rule(0, true, 7200, Julian(100, 0), Julian(100, 14400))

  lemma BeforeTwo(t: int)
    ensures ValidRule(TWO_HOURS) && (InDst(TWO_HOURS, t) ==> t % 86400 < 7200)
  {
    hide YearStart, CalendarYear, InDst;
    var r, y := TWO_HOURS, CalendarYear(t / 86400);
    CalendarYearIs(t / 86400);
    ByYear(r, t, y);
    if InDst(r, t) { SameHour(YearStart(y) + RuleDay(y, r.start), t); }
  }

  lemma SameHour(day: int, t: int)
    requires day * 86400 <= t < day * 86400 + 7200
    ensures t % 86400 < 7200
  {
    DivIs(t, 86400, day, t - day * 86400);
  }

  /** No probe of `mktime` falls in these two hours, so that it does not invert `localtime` at their start. */
  lemma NotInverted()
    ensures ValidRule(TWO_HOURS)
    ensures var z, t := RuleZone(TWO_HOURS), 8553600;
            && LocalTime(z, t).Some?
            && var lt := LocalTime(z, t).value; var L := TmToSecs(lt.tm);
               L.Some? && Result(z, L.value - OffsetOfKind(z, L.value, lt.dst)) != Some((t, lt))
  {
    hide InDst, OffsetOfKind, SecsToTm, TmToSecs, FindFrom;
    BeforeTwo(8553600);
    var r, t, L := TWO_HOURS, 8553600, 8560800;
    var z := RuleZone(r);
    assert InDst(r, t) by { ByYear(r, t, 1970); }
    SecsToTmFits(L, 1970);
    forall n: int ensures !z(L + n * 86400).dst { BeforeTwo(L + n * 86400); }
    forall i: nat | i < 5 ensures !z(Sample(L, i)).dst { assert Sample(L, i) == L + (i - 2) * 86400; }
    NeverFound(z, L, 0);
    MktimeInverts(r, t);
  }

  lemma {:induction false} NeverFound(z: Zone, L: int, n: nat)
    requires n <= 25 && forall k: int :: !z(L + k * 86400).dst
    ensures FindFrom(z, L, true, n).None?
    decreases 25 - n
  {
    if n < 25 {
      assert L - n * 1296000 == L + (-15 * n) * 86400 && L + n * 1296000 == L + (15 * n) * 86400;
      NeverFound(z, L, n + 1);
    }
  }

  // ---- periods that last ----

  /** From s up to e one kind of time is in force, and not before nor after. */
  ghost predicate Period(r: Rule, s: int, e: int)
    requires ValidRule(r)
  {
    && s < e && InDst(r, s - 1) != InDst(r, s) && InDst(r, e) != InDst(r, s)
    && forall t | s <= t < e :: InDst(r, t) == InDst(r, s)
  }

  /** Standard time and daylight saving time each last at least a day. */
  ghost predicate LongPeriods(r: Rule)
    requires ValidRule(r)
  {
    forall s: int, e: int | Period(r, s, e) :: e - s >= 86400
  }

  lemma RunStart(r: Rule, p: int, t: int) returns (s: int)
    requires ValidRule(r) && p < t && InDst(r, p) != InDst(r, t)
    ensures p < s <= t && InDst(r, s - 1) != InDst(r, s) && forall x | s <= x <= t :: InDst(r, x) == InDst(r, t)
  {
    hide InDst;
    s := t;
    while InDst(r, s - 1) == InDst(r, t)
      invariant p < s <= t && forall x | s <= x <= t :: InDst(r, x) == InDst(r, t)
      decreases s - p
    {
      s := s - 1;
    }
  }

  lemma RunEnd(r: Rule, t: int, q: int) returns (e: int)
    requires ValidRule(r) && t < q && InDst(r, t) != InDst(r, q)
    ensures t < e <= q && InDst(r, e) != InDst(r, t) && forall x | t <= x < e :: InDst(r, x) == InDst(r, t)
  {
    hide InDst;
    e := t + 1;
    while InDst(r, e) == InDst(r, t)
      invariant t < e <= q && forall x | t <= x < e :: InDst(r, x) == InDst(r, t)
      decreases q - e
    {
      e := e + 1;
    }
  }

  lemma PeriodAround(r: Rule, p: int, t: int, q: int) returns (s: int, e: int)
    requires ValidRule(r) && p < t < q && InDst(r, p) != InDst(r, t) && InDst(r, q) != InDst(r, t)
    ensures p < s && e <= q && Period(r, s, e)
  {
    hide InDst;
    s := RunStart(r, p, t);
    e := RunEnd(r, t, q);
  }

  /** Of two times a day apart around t, one is of its kind. */
  lemma OneOfTwo(r: Rule, p: int, t: int)
    requires ValidRule(r) && LongPeriods(r) && p <= t < p + 86400
    ensures InDst(r, p) == InDst(r, t) || InDst(r, p + 86400) == InDst(r, t)
  {
    hide InDst, Period;
    if InDst(r, p) != InDst(r, t) && InDst(r, p + 86400) != InDst(r, t) {
      var s, e := PeriodAround(r, p, t, p + 86400);
    }
  }

  lemma SampleSees(r: Rule, t: int)
    requires ValidRule(r) && LongPeriods(r)
    ensures var z := RuleZone(r); Seen(z, t + z(t).off, z(t).dst)
  {
    hide InDst, FindFrom, LongPeriods;
    var z := RuleZone(r);
    var L, want := t + z(t).off, z(t).dst;
    OffsetRange(r, t);
    var i: nat := (t - L) / 86400 + 2;
    assert i < 4 && Sample(L, i) <= t < Sample(L, i) + 86400;
    OneOfTwo(r, Sample(L, i), t);
    assert Sample(L, i + 1) == Sample(L, i) + 86400;
    assert z(Sample(L, i)).dst == want || z(Sample(L, i + 1)).dst == want;
  }

  lemma OffsetRange(r: Rule, t: int)
    requires ValidRule(r)
    ensures -86400 <= RuleZone(r)(t).off <= 90000
  {
    assert InDst(r, t) ==> r.hasDst;
  }

  /** In the zone of a rule whose periods last at least a day, `mktime` inverts `localtime`. */
  lemma MktimeLocaltime(r: Rule, t: int)
    requires ValidRule(r) && LongPeriods(r) && LocalTime(RuleZone(r), t).Some?
    ensures var z := RuleZone(r); var lt := LocalTime(z, t).value; var L := TmToSecs(lt.tm);
            L.Some? && Result(z, L.value - OffsetOfKind(z, L.value, lt.dst)) == Some((t, lt))
  {
    hide InDst, OffsetOfKind, Seen, SecsToTm, TmToSecs, LongPeriods;
    MktimeInverts(r, t);
    SampleSees(r, t);
  }

  // ---- rules whose periods last ----

  /** The first second of a year in standard time. */
  function NewYear(r: Rule, y: int): int { 86400 * YearStart(y) - r.stdOff }

  /** In year y the two dates are a day or more from each other and from either end of the year. */
  predicate Apart(r: Rule, y: int)
    requires ValidRule(r) && r.hasDst
  {
    var a, b, s, e := NewYear(r, y), NewYear(r, y + 1), StartOf(r, y), EndOf(r, y);
    a + 86400 <= s <= b - 86400 && a + 86400 <= e <= b - 86400 && (s + 86400 <= e || e + 86400 <= s)
  }

  /** The kind of time changes at a date of the year, or at its start. */
  lemma ChangesAt(r: Rule, x: int, y: int)
    requires ValidRule(r) && r.hasDst && InDst(r, x - 1) != InDst(r, x) && NewYear(r, y) <= x < NewYear(r, y + 1)
    ensures y >= 1970 && (x == NewYear(r, y) || x == StartOf(r, y) || x == EndOf(r, y))
  {
    hide InDst, StartOf, EndOf, YearStart, ValidRule;
    YearOfTime(r, x, y);
    ByYear(r, x, y);
    if x > NewYear(r, y) {
      YearOfTime(r, x - 1, y);
      ByYear(r, x - 1, y);
    } else if y <= 1970 {
      YearNext(y - 1);
      YearOfTime(r, x - 1, y - 1);
      ByYear(r, x - 1, y - 1);
    }
  }

  lemma YearOfTime(r: Rule, x: int, y: int)
    requires NewYear(r, y) <= x < NewYear(r, y + 1)
    ensures YearStart(y) <= (x + r.stdOff) / 86400 < YearStart(y + 1)
  {
    hide YearStart;
  }

  lemma SomeNewYear(r: Rule, x: int) returns (y: int)
    ensures NewYear(r, y) <= x < NewYear(r, y + 1)
  {
    hide YearStart, CalendarYear;
    y := CalendarYear((x + r.stdOff) / 86400);
    CalendarYearIs((x + r.stdOff) / 86400);
  }

  /** Two changes are a day apart. */
  lemma ChangesApart(r: Rule, s: int, e: int)
    requires ValidRule(r) && r.hasDst && (forall y | y >= 1970 :: Apart(r, y)) && s < e
    requires InDst(r, s - 1) != InDst(r, s) && InDst(r, e - 1) != InDst(r, e)
    ensures e - s >= 86400
  {
    hide InDst, StartOf, EndOf, YearStart, ValidRule;
    var y := SomeNewYear(r, s);
    var y' := SomeNewYear(r, e);
    ChangesAt(r, s, y); ChangesAt(r, e, y');
    assert Apart(r, y) && Apart(r, y');
    if y < y' { YearsGrow(y + 1, y'); } else if y' < y { YearsGrow(y' + 1, y); }
  }

  /** Rules whose dates keep a day's distance have periods of a day or more. */
  lemma ApartLasts(r: Rule)
    requires ValidRule(r) && (r.hasDst ==> forall y | y >= 1970 :: Apart(r, y))
    ensures LongPeriods(r)
  {
    hide StartOf, EndOf, YearStart, CalendarYear, ValidDate, InYear, Apart;
    forall s: int, e: int | Period(r, s, e) ensures e - s >= 86400 {
      assert r.hasDst;
      assert InDst(r, e - 1) == InDst(r, s);
      ChangesApart(r, s, e);
    }
  }

  /** The rule that stands when a zone names daylight saving time and gives no dates. */
  function DefaultRule(stdOff: int): Rule {
    Rule(stdOff, true, stdOff + 3600, Weekday(3, 2, 0, 7200), Weekday(11, 1, 0, 7200))
  }

  lemma DefaultLasts(stdOff: int)
    requires -86400 <= stdOff <= 86400
    ensures ValidRule(DefaultRule(stdOff)) && LongPeriods(DefaultRule(stdOff))
  {
    var r := DefaultRule(stdOff);
    hide LongPeriods;
    forall y | y >= 1970 ensures Apart(r, y) {
      DayOfMonthIs(y, 3, 2, 0); DayOfMonthIs(y, 11, 1, 0);
      MonthStarts(y);
      YearNext(y);
      hide YearStart, MonthStart, DayOfMonth, IsLeap, WeekdayOf, MonthLength;
    }
    ApartLasts(r);
  }
}
