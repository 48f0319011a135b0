/** The conversion loop of src/iconv.c: a call stops where the output is full or the input incomplete, and
    a later call takes up where it stopped. */
module IconvRun {
  import opened Utf8
  import opened Iconv

  /** What `iconv_open` fixes: the charsets, //TRANSLIT and //IGNORE. */
  datatype Conv = Conv(from: Charset, to: Charset, translit: bool, ignore: bool)

  const TRANSLIT_OF: seq<int> := [
    0x00a0, 0x00a9, 0x00ab, 0x00ad, 0x00ae, 0x00b5, 0x00b7, 0x00bb, 0x00bc, 0x00bd, 0x00be, 0x00c6, 0x00d7,
    0x00df, 0x00e6, 0x0152, 0x0153, 0x2002, 0x2003, 0x2009, 0x2010, 0x2011, 0x2012, 0x2013, 0x2014, 0x2018,
    0x2019, 0x201a, 0x201c, 0x201d, 0x201e, 0x2022, 0x2026, 0x2039, 0x203a, 0x20ac, 0x2122, 0x2190, 0x2192,
    0x2212]
  const TRANSLIT_AS: seq<string> := [
    " ", "(C)", "<<", "-", "(R)", "u", ".", ">>", " 1/4 ", " 1/2 ", " 3/4 ", "AE", "x", "ss", "ae", "OE", "oe",
    " ", " ", " ", "-", "-", "-", "-", "-", "'", "'", ",", "\"", "\"", ",,", "o", "...", "<", ">", "EUR", "(TM)",
    "<-", "->", "-"]
  const TRANSLITS := 40

  // ---- one character out ----

  datatype Out = Fits(s: seq<Byte>, st: State) | NoRoom | NoChar

  /** `encode` with room for so many bytes. */
  function EncodeRoom(c: Charset, st: State, u: int, room: nat): Out
    requires Scalar(u)
  {
    var (e, st') := EncodeOne(c, st, u);
    if e.Unrepresentable? then NoChar else if |e.s| > room then NoRoom else Fits(e.s, st')
  }

  function Replacement(u: int): string {
    var i := Find(TRANSLIT_OF, u, TRANSLITS);
    if i < TRANSLITS then TRANSLIT_AS[i] else "?"
  }

  predicate Plain(t: string) { forall i | 0 <= i < |t| :: t[i] < 128 as char }

  lemma ReplacementPlain(u: int)
    ensures Plain(Replacement(u))
  {
    assert forall i | 0 <= i < TRANSLITS :: Plain(TRANSLIT_AS[i]);
  }

  lemma AsciiEncodes(c: Charset, st: State, u: int)
    requires 0 <= u < 0x80
    ensures EncodeOne(c, st, u).0.As?
  {
    assert forall i | 0 <= i < 8 :: LATIN9_IS[i] > 0xff && LATIN9_AT[i] > 0x7f;
  }

  /** The characters of t, one after the other. */
  function Spelled(c: Charset, st: State, t: string, room: nat): Out
    decreases |t|
  {
    if t == [] then Fits([], st)
    else
      match EncodeRoom(c, st, t[0] as int, room)
      case NoChar => NoChar
      case NoRoom => NoRoom
      case Fits(a, st1) =>
        var rest := Spelled(c, st1, t[1..], room - |a|);
        if rest.Fits? then Fits(a + rest.s, rest.st) else rest
  }

  /** `translit`: all of the replacement or nothing. */
  function Transliterated(c: Charset, st: State, u: int, room: nat): Out {
    var o := Spelled(c, st, Replacement(u), room);
    if o.NoChar? then EncodeRoom(c, st, '?' as int, room) else o
  }

  /** A character out, transliterated if need be. */
  function Put(cv: Conv, st: State, u: int, room: nat): Out
    requires Scalar(u)
  {
    var e := EncodeRoom(cv.to, st, u, room);
    if e.NoChar? && cv.translit then Transliterated(cv.to, st, u, room) else e
  }

  /** What fits does not depend on how much more room there is. */
  lemma PutRoom(cv: Conv, st: State, u: int, room: nat, room': nat)
    requires Scalar(u)
    ensures Put(cv, st, u, room).NoChar? <==> Put(cv, st, u, room').NoChar?
    ensures Put(cv, st, u, room).Fits? ==> |Put(cv, st, u, room).s| <= room
    ensures Put(cv, st, u, room).Fits? && |Put(cv, st, u, room).s| <= room' ==>
        Put(cv, st, u, room') == Put(cv, st, u, room)
  {
    hide EncodeOne, Spelled, Replacement;
    if EncodeOne(cv.to, st, u).0.Unrepresentable? && cv.translit {
      ReplacementPlain(u);
      SpelledRoom(cv.to, st, Replacement(u), room, room');
    }
  }

  lemma {:induction false} SpelledRoom(c: Charset, st: State, t: string, room: nat, room': nat)
    requires Plain(t)
    ensures !Spelled(c, st, t, room).NoChar? && !Spelled(c, st, t, room').NoChar?
    ensures var o := Spelled(c, st, t, room);
            o.Fits? ==> |o.s| <= room && (|o.s| <= room' ==> Spelled(c, st, t, room') == o)
    decreases |t|
  {
    hide EncodeOne;
    if t != [] {
      AsciiEncodes(c, st, t[0] as int);
      var (e, st1) := EncodeOne(c, st, t[0] as int);
      if |e.s| <= room {
        SpelledRoom(c, st1, t[1..], room - |e.s|, if |e.s| <= room' then room' - |e.s| else 0);
      } else if |e.s| <= room' {
        SpelledRoom(c, st1, t[1..], room' - |e.s|, 0);
      }
    }
  }

  // ---- a call ----

  datatype Why = Done | EINVAL | EILSEQ | E2BIG

  /** What a call leaves: the state, the bytes of input used, the bytes written and why it stopped. */
  datatype Res = Res(st: State, used: nat, out: seq<Byte>, why: Why, irreversible: nat, ignored: bool)

  /** k bytes used and b written before r. */
  function After(k: nat, b: seq<Byte>, irr: nat, ign: bool, r: Res): Res {
    Res(r.st, k + r.used, b + r.out, r.why, irr + r.irreversible, ign || r.ignored)
  }

  /** One turn of the loop: it stops, or uses k bytes and writes b. */
  datatype Turn = Halt(st: State, why: Why) | Go(st: State, k: nat, b: seq<Byte>, irr: nat, ign: bool)

  function TurnOf(cv: Conv, st: State, s: seq<Byte>, room: nat): Turn
    requires s != []
  {
    ReadsScalar(cv.from, st, s);
    var (d, st1) := DecodeOne(cv.from, st, s);
    match d
    case Short => Halt(st1, EINVAL)
    case Wrong => if cv.ignore then Go(st1, 1, [], 0, true) else Halt(st1, EILSEQ)
    case Bom(k) => Go(st1, k, [], 0, false)
    case Reads(u, k) =>
      match Put(cv, st1, u, room)
      case NoChar => if cv.ignore then Go(st1, k, [], 1, true) else Halt(st1, EILSEQ)
      case NoRoom => Halt(st1, E2BIG)
      case Fits(b, st2) => Go(st2, k, b, if EncodeOne(cv.to, st1, u).0.As? then 0 else 1, false)
  }

  lemma TurnBounds(cv: Conv, st: State, s: seq<Byte>, room: nat)
    requires s != []
    ensures var t := TurnOf(cv, st, s, room); (t.Go? ==> 1 <= t.k <= |s| && |t.b| <= room) && (t.Halt? ==> !t.why.Done?)
  {
    hide DecodeOne, Put;
    ReadsScalar(cv.from, st, s);
    var (d, st1) := DecodeOne(cv.from, st, s);
    if d.Reads? { PutRoom(cv, st1, d.u, room, room); }
  }

  function Run(cv: Conv, st: State, s: seq<Byte>, room: nat): Res
    decreases |s|
  {
    if s == [] then Res(st, 0, [], Done, 0, false)
    else
      TurnBounds(cv, st, s, room);
      match TurnOf(cv, st, s, room)
      case Halt(st1, why) => Res(st1, 0, [], why, 0, false)
      case Go(st1, k, b, irr, ign) => After(k, b, irr, ign, Run(cv, st1, s[k..], room - |b|))
  }

  // ---- interrupted and resumed ----

  /** A turn that goes on does so whatever follows; and one that stops for want of room or input leaves
      nothing behind that would make the same input look different. */
  lemma TurnAgain(cv: Conv, st: State, a: seq<Byte>, b: seq<Byte>, room: nat, room': nat)
    requires a != []
    ensures var t := TurnOf(cv, st, a, room);
            && (t.Go? && |t.b| <= room' ==> TurnOf(cv, st, a + b, room') == t)
            && (t.Halt? && t.why.EILSEQ? ==> TurnOf(cv, st, a + b, room') == t)
            && (t.Halt? && !t.why.EILSEQ? ==> TurnOf(cv, t.st, a + b, room') == TurnOf(cv, st, a + b, room'))
  {
    hide DecodeOne, Put, EncodeOne;
    var (d, st1) := DecodeOne(cv.from, st, a);
    ReadsScalar(cv.from, st, a);
    if !d.Short? { Stable(cv.from, st, a, b); }
    if !d.Bom? { Redecode(cv.from, st, a, b); }
    if d.Reads? { PutRoom(cv, st1, d.u, room, room'); }
  }

  /** A call on a that stops anywhere but at an illegal character, and a call on what it left of a and on
      whatever comes after, do what one call on everything does. */
  lemma {:induction false} Resume(cv: Conv, st: State, a: seq<Byte>, b: seq<Byte>, room: nat, room': nat)
    requires Run(cv, st, a, room).why != EILSEQ
    ensures var r := Run(cv, st, a, room);
            r.used <= |a| && Run(cv, st, a + b, |r.out| + room')
                == After(r.used, r.out, r.irreversible, r.ignored, Run(cv, r.st, a[r.used..] + b, room'))
    decreases |a|
  {
    hide TurnOf, Run, After;
    var r := Run(cv, st, a, room);
    if a == [] {
      RunEmpty(cv, st, room);
      assert a + b == b && a[0..] + b == b;
      AfterNothing(Run(cv, st, b, room'));
    } else {
      var t := TurnOf(cv, st, a, room);
      if t.Halt? {
        RunHalt(cv, st, a, room);
        TurnAgain(cv, st, a, b, room, room');
        assert a[0..] + b == a + b;
        SameTurn(cv, st, t.st, a + b, room');
        AfterNothing(Run(cv, st, a + b, room'));
      } else {
        RunGo(cv, st, a, room, t);
        var q := Run(cv, t.st, a[t.k..], room - |t.b|);
        AfterParts(t.k, t.b, t.irr, t.ign, q);
        Resume(cv, t.st, a[t.k..], b, room - |t.b|, room');
        TurnAgain(cv, st, a, b, room, |r.out| + room');
        RunGo(cv, st, a + b, |r.out| + room', t);
        assert (a + b)[t.k..] == a[t.k..] + b && a[t.k..][q.used..] == a[r.used..];
        AfterAfter(t, q, Run(cv, r.st, a[r.used..] + b, room'));
      }
    }
  }

  lemma AfterParts(k: nat, b: seq<Byte>, irr: nat, ign: bool, q: Res)
    ensures var r := After(k, b, irr, ign, q);
            && r.st == q.st && r.used == k + q.used && r.out == b + q.out && r.why == q.why
            && r.irreversible == irr + q.irreversible && (r.ignored <==> ign || q.ignored)
  {
  }

  lemma RunEmpty(cv: Conv, st: State, room: nat)
    ensures Run(cv, st, [], room) == Res(st, 0, [], Done, 0, false)
  {
  }

  lemma RunHalt(cv: Conv, st: State, s: seq<Byte>, room: nat)
    requires s != [] && TurnOf(cv, st, s, room).Halt?
    ensures Run(cv, st, s, room) == Res(TurnOf(cv, st, s, room).st, 0, [], TurnOf(cv, st, s, room).why, 0, false)
  {
    hide TurnOf;
  }

  lemma RunGo(cv: Conv, st: State, s: seq<Byte>, room: nat, t: Turn)
    requires s != [] && t == TurnOf(cv, st, s, room) && t.Go?
    ensures 1 <= t.k <= |s| && |t.b| <= room
        && Run(cv, st, s, room) == After(t.k, t.b, t.irr, t.ign, Run(cv, t.st, s[t.k..], room - |t.b|))
  {
    hide TurnOf;
    TurnBounds(cv, st, s, room);
  }

  lemma AfterNothing(r: Res)
    ensures After(0, [], 0, false, r) == r
  {
    assert [] + r.out == r.out;
  }

  lemma AfterAfter(t: Turn, q: Res, r: Res)
    requires t.Go?
    ensures After(t.k, t.b, t.irr, t.ign, After(q.used, q.out, q.irreversible, q.ignored, r))
         == After(t.k + q.used, t.b + q.out, t.irr + q.irreversible, t.ign || q.ignored, r)
  {
    assert t.b + (q.out + r.out) == (t.b + q.out) + r.out;
  }

  lemma SameTurn(cv: Conv, st: State, st': State, s: seq<Byte>, room: nat)
    requires s != [] && TurnOf(cv, st', s, room) == TurnOf(cv, st, s, room)
    ensures Run(cv, st', s, room) == Run(cv, st, s, room)
  {
    hide TurnOf;
  }

  /** An illegal character is found at the same place whatever follows it. */
  lemma {:induction false} StillIllegal(cv: Conv, st: State, a: seq<Byte>, b: seq<Byte>, room: nat, room': nat)
    requires Run(cv, st, a, room).why == EILSEQ && |Run(cv, st, a, room).out| <= room'
    ensures Run(cv, st, a + b, room') == Run(cv, st, a, room)
    decreases |a|
  {
    hide TurnOf, Run, After;
    if a == [] {
      RunEmpty(cv, st, room);
      assert false;
    } else {
      var t := TurnOf(cv, st, a, room);
      if t.Halt? {
        RunHalt(cv, st, a, room);
        TurnAgain(cv, st, a, b, room, room');
        RunHalt(cv, st, a + b, room');
      } else {
        RunGo(cv, st, a, room, t);
        var q := Run(cv, t.st, a[t.k..], room - |t.b|);
        AfterParts(t.k, t.b, t.irr, t.ign, q);
        TurnAgain(cv, st, a, b, room, room');
        RunGo(cv, st, a + b, room', t);
        StillIllegal(cv, t.st, a[t.k..], b, room - |t.b|, room' - |t.b|);
        assert (a + b)[t.k..] == a[t.k..] + b;
      }
    }
  }

  /** With //IGNORE nothing stops a call for being illegal. */
  lemma {:induction false} NeverIllegal(cv: Conv, st: State, s: seq<Byte>, room: nat)
    requires cv.ignore
    ensures Run(cv, st, s, room).why != EILSEQ
    decreases |s|
  {
    hide TurnOf, Run;
    if s == [] {
      RunEmpty(cv, st, room);
    } else {
      var t := TurnOf(cv, st, s, room);
      Ignores(cv, st, s, room);
      if t.Halt? { RunHalt(cv, st, s, room); } else {
        RunGo(cv, st, s, room, t);
        NeverIllegal(cv, t.st, s[t.k..], room - |t.b|);
      }
    }
  }

  lemma Ignores(cv: Conv, st: State, s: seq<Byte>, room: nat)
    requires s != [] && cv.ignore
    ensures TurnOf(cv, st, s, room).Halt? ==> TurnOf(cv, st, s, room).why != EILSEQ
  {
    hide DecodeOne, Put, EncodeOne;
  }

  // ---- any number of calls ----

  /** A call with more input behind what the call before left, and with so much room. */
  datatype Call = Call(more: seq<Byte>, room: nat)

  /** All the input of some calls. */
  function Input(calls: seq<Call>): seq<Byte> { if calls == [] then [] else calls[0].more + Input(calls[1..]) }

  /** What the calls did together, and the input that is left. */
  datatype Session = Session(r: Res, left: seq<Byte>)

  /** One call after the other until one finds an illegal character. */
  function Calls(cv: Conv, st: State, left: seq<Byte>, calls: seq<Call>): Session
    decreases |calls|
  {
    if calls == [] then Session(Res(st, 0, [], Done, 0, false), left)
    else
      var s := left + calls[0].more;
      var r := Run(cv, st, s, calls[0].room);
      RunUses(cv, st, s, calls[0].room);
      if r.why.EILSEQ? then Session(r, s[r.used..])
      else
        var rest := Calls(cv, r.st, s[r.used..], calls[1..]);
        Session(After(r.used, r.out, r.irreversible, r.ignored, rest.r), rest.left)
  }

  lemma {:induction false} RunUses(cv: Conv, st: State, s: seq<Byte>, room: nat)
    ensures Run(cv, st, s, room).used <= |s| && |Run(cv, st, s, room).out| <= room
    decreases |s|
  {
    hide TurnOf;
    if s != [] {
      var t := TurnOf(cv, st, s, room);
      TurnBounds(cv, st, s, room);
      if t.Go? { RunUses(cv, t.st, s[t.k..], room - |t.b|); }
    }
  }

  /** However often a conversion is interrupted, for want of room or of input, the calls together do what
      one call on all the input does: the same output, the same input used, the same state, the same
      stop at an illegal character. */
  lemma {:induction false} AsOneCall(cv: Conv, st: State, left: seq<Byte>, calls: seq<Call>, room: nat)
    ensures var t := Calls(cv, st, left, calls);
            && (t.r.why.EILSEQ? ==> Run(cv, st, left + Input(calls), |t.r.out| + room) == t.r)
            && (!t.r.why.EILSEQ? ==>
                  Run(cv, st, left + Input(calls), |t.r.out| + room)
                      == After(t.r.used, t.r.out, t.r.irreversible, t.r.ignored, Run(cv, t.r.st, t.left, room)))
    decreases |calls|
  {
    hide Run, After;
    if calls == [] {
      assert left + [] == left;
      AfterNothing(Run(cv, st, left, room));
    } else {
      var s, rest := left + calls[0].more, Input(calls[1..]);
      var r := Run(cv, st, s, calls[0].room);
      RunUses(cv, st, s, calls[0].room);
      assert left + Input(calls) == s + rest;
      var all := Calls(cv, st, left, calls);
      if r.why.EILSEQ? {
        StillIllegal(cv, st, s, rest, calls[0].room, |r.out| + room);
      } else {
        var q := Calls(cv, r.st, s[r.used..], calls[1..]);
        AfterParts(r.used, r.out, r.irreversible, r.ignored, q.r);
        Resume(cv, st, s, rest, calls[0].room, |q.r.out| + room);
        AsOneCall(cv, r.st, s[r.used..], calls[1..], room);
        if !q.r.why.EILSEQ? { AfterRes(r, q.r, Run(cv, q.r.st, q.left, room)); }
      }
    }
  }

  lemma AfterRes(q: Res, p: Res, r: Res)
    ensures After(q.used, q.out, q.irreversible, q.ignored, After(p.used, p.out, p.irreversible, p.ignored, r))
         == After(q.used + p.used, q.out + p.out, q.irreversible + p.irreversible, q.ignored || p.ignored, r)
  {
    assert q.out + (p.out + r.out) == (q.out + p.out) + r.out;
  }

  /** In particular, calls that use all their input write what one call with room enough writes. */
  lemma SameOutput(cv: Conv, st: State, calls: seq<Call>, room: nat)
    requires Calls(cv, st, [], calls).left == [] && !Calls(cv, st, [], calls).r.why.EILSEQ?
        && room >= |Calls(cv, st, [], calls).r.out|
    ensures var t := Calls(cv, st, [], calls).r; var one := Run(cv, st, Input(calls), room);
            one.why == Done && one.out == t.out && one.st == t.st && one.used == t.used
                && one.irreversible == t.irreversible
  {
    hide Run, Calls;
    var t := Calls(cv, st, [], calls).r;
    AsOneCall(cv, st, [], calls, room - |t.out|);
    assert [] + Input(calls) == Input(calls);
    RunEmpty(cv, t.st, room - |t.out|);
    assert t.out + [] == t.out;
  }

  // ---- what a conversion means ----

  /** Charset c has every character of us. */
  predicate Has(c: Charset, us: seq<int>)
    requires Scalars(us)
  {
    forall i | 0 <= i < |us| :: EncodeOne(c, FRESH, us[i]).0.As?
  }

  lemma HasAlways(c: Charset, st: State, u: int)
    requires Scalar(u)
    ensures EncodeOne(c, st, u).0.As? <==> EncodeOne(c, FRESH, u).0.As?
  {
    hide EncodeNarrow, Encode, Encode16, Put16, Put32;
  }

  /** The text us in charset c, written in state st. */
  function Written(c: Charset, st: State, us: seq<int>): seq<Byte>
    requires Scalars(us) && Has(c, us)
    decreases |us|
  {
    if us == [] then []
    else
      HasAlways(c, st, us[0]);
      var (e, st') := EncodeOne(c, st, us[0]);
      e.s + Written(c, st', us[1..])
  }

  /** Reading a character that was written, mark and all. */
  lemma ReadWritten(cv: Conv, st: State, o: State, u: int, rest: seq<Byte>, room: nat)
    requires Scalar(u) && InStep(cv.from, st, o) && EncodeOne(cv.from, o, u).0.As? && EncodeOne(cv.to, st, u).0.As?
    requires |EncodeOne(cv.to, st, u).0.s| <= room
    ensures var s, (b, st') := EncodeOne(cv.from, o, u).0.s, EncodeOne(cv.to, st, u); 
            var st2 := if MarkLength(cv.from, o) > 0 then st'.(inBomDone := true) else st';
            && InStep(cv.from, st2, EncodeOne(cv.from, o, u).1)
            && Run(cv, st, s + rest, room) == After(|s|, b.s, 0, false, Run(cv, st2, rest, room - |b.s|))
  {
    hide DecodeOne, EncodeOne, Run, TurnOf;
    var s, n := EncodeOne(cv.from, o, u).0.s, MarkLength(cv.from, o);
    DecodeEncode(cv.from, st, o, u, rest);
    var st1 := if n > 0 then st.(inBomDone := true) else st;
    MarkKept(cv.to, st, u);
    if n > 0 {
      TurnMark(cv, st, s + rest, room, n, st1);
      RunGo(cv, st, s + rest, room, Go(st1, n, [], 0, false));
      assert (s + rest)[n..] == s[n..] + rest;
    } else {
      assert s[0..] == s;
    }
    TurnReads(cv, st1, s[n..] + rest, room, u, |s| - n);
    var (e, st2) := EncodeOne(cv.to, st1, u);
    RunGo(cv, st1, s[n..] + rest, room, Go(st2, |s| - n, e.s, 0, false));
    assert (s[n..] + rest)[|s| - n..] == rest;
    assert [] + (e.s + Run(cv, st2, rest, room - |e.s|).out) == e.s + Run(cv, st2, rest, room - |e.s|).out;
  }

  lemma MarkKept(c: Charset, st: State, u: int)
    requires Scalar(u)
    ensures var t := st.(inBomDone := true);
            EncodeOne(c, t, u) == (EncodeOne(c, st, u).0, EncodeOne(c, st, u).1.(inBomDone := true))
    ensures EncodeOne(c, st, u).1.inBe == st.inBe && EncodeOne(c, st, u).1.inBomDone == st.inBomDone
  {
    hide EncodeNarrow, Encode, Encode16, Put16, Put32;
  }

  lemma TurnMark(cv: Conv, st: State, s: seq<Byte>, room: nat, n: nat, st1: State)
    requires s != [] && DecodeOne(cv.from, st, s) == (Bom(n), st1)
    ensures TurnOf(cv, st, s, room) == Go(st1, n, [], 0, false)
  {
    hide DecodeOne;
  }

  lemma TurnReads(cv: Conv, st: State, s: seq<Byte>, room: nat, u: int, k: nat)
    requires s != [] && Scalar(u) && DecodeOne(cv.from, st, s) == (Reads(u, k), st) && EncodeOne(cv.to, st, u).0.As?
        && |EncodeOne(cv.to, st, u).0.s| <= room
    ensures TurnOf(cv, st, s, room) == Go(EncodeOne(cv.to, st, u).1, k, EncodeOne(cv.to, st, u).0.s, 0, false)
  {
    hide DecodeOne, EncodeOne;
  }

  /** A text in one charset becomes the same text in the other. */
  lemma {:induction false} Converts(cv: Conv, st: State, o: State, us: seq<int>, room: nat)
    requires Scalars(us) && Has(cv.from, us) && Has(cv.to, us) && InStep(cv.from, st, o)
        && |Written(cv.to, st, us)| <= room
    ensures var r := Run(cv, st, Written(cv.from, o, us), room);
            r.why == Done && r.out == Written(cv.to, st, us) && r.used == |Written(cv.from, o, us)|
                && r.irreversible == 0 && !r.ignored
    decreases |us|
  {
    hide EncodeOne, Run, InStep, Scalar;
    if us == [] {
      RunEmpty(cv, st, room);
    } else {
      var u := us[0];
      HasAlways(cv.from, o, u); HasAlways(cv.to, st, u);
      var (a, o') := EncodeOne(cv.from, o, u);
      var (b, st') := EncodeOne(cv.to, st, u);
      var st2 := if MarkLength(cv.from, o) > 0 then st'.(inBomDone := true) else st';
      ReadWritten(cv, st, o, u, Written(cv.from, o', us[1..]), room);
      WrittenSame(cv.to, st', us[1..]);
      Converts(cv, st2, o', us[1..], room - |b.s|);
    }
  }

  /** What is written does not depend on what was read. */
  lemma {:induction false} WrittenSame(c: Charset, st: State, us: seq<int>)
    requires Scalars(us) && Has(c, us)
    ensures Written(c, st.(inBomDone := true), us) == Written(c, st, us)
    decreases |us|
  {
    hide EncodeOne;
    if us != [] {
      HasAlways(c, st, us[0]); HasAlways(c, st.(inBomDone := true), us[0]);
      MarkKept(c, st, us[0]);
      WrittenSame(c, EncodeOne(c, st, us[0]).1, us[1..]);
    }
  }

  /** There and back: the bytes that were there. */
  lemma ThereAndBack(c: Charset, d: Charset, us: seq<int>, room: nat)
    requires Scalars(us) && Has(c, us) && Has(d, us) && room >= |Written(c, FRESH, us)|
        && room >= |Written(d, FRESH, us)|
    ensures var there := Run(Conv(c, d, false, false), FRESH, Written(c, FRESH, us), room);
            var back := Run(Conv(d, c, false, false), FRESH, there.out, room);
            there.why == Done && back.why == Done && back.out == Written(c, FRESH, us)
  {
    hide Run, Written;
    Converts(Conv(c, d, false, false), FRESH, FRESH, us, room);
    Converts(Conv(d, c, false, false), FRESH, FRESH, us, room);
  }
}
