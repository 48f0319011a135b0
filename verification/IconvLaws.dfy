/** Byte order and byte order marks in src/iconv.c: what they are, and that a mark of either order is obeyed. */
module IconvLaws {
  import opened Utf8
  import opened Iconv
  import opened IconvRun
  import U = Utf16

  // ---- bytes ----

  /** Most significant byte first. */
  function Big(u: nat, n: nat): (s: seq<Byte>)
    ensures |s| == n
  {
    if n == 0 then [] else Big(u / 256, n - 1) + [u % 256]
  }

  function Reversed(s: seq<Byte>): (r: seq<Byte>)
    ensures |r| == |s| && forall i | 0 <= i < |s| :: r[i] == s[|s| - 1 - i]
  {
    if s == [] then [] else Reversed(s[1..]) + [s[0]]
  }

  lemma PutIs(v: nat)
    ensures v < 0x10000 ==> Put16(v, false) == Big(v, 2) && Put16(v, true) == Reversed(Big(v, 2))
    ensures v < 0x1_0000_0000 ==> Put32(v, false) == Big(v, 4) && Put32(v, true) == Reversed(Big(v, 4))
  {
    hide Put16, Put32, Big, Reversed;
    if v < 0x10000 { PutTwo(v); }
    if v < 0x1_0000_0000 { PutFour(v); }
  }

  lemma PutTwo(v: nat)
    requires v < 0x10000
    ensures Put16(v, false) == Big(v, 2) && Put16(v, true) == Reversed(Big(v, 2))
  {
    BigTwo(v);
    hide Big, Reversed;
  }

  lemma PutFour(v: nat)
    requires v < 0x1_0000_0000
    ensures Put32(v, false) == Big(v, 4) && Put32(v, true) == Reversed(Big(v, 4))
  {
    BigFour(v);
    hide Big, Reversed;
    assert v / 0x1_0000 == v / 256 / 256 && v / 0x100_0000 == v / 256 / 256 / 256;
  }

  lemma BigFour(v: nat)
    ensures Big(v, 4) == [v / 256 / 256 / 256 % 256, v / 256 / 256 % 256, v / 256 % 256, v % 256]
  {
    BigTwo(v / 256 / 256);
    var w := v / 256;
    assert Big(v, 4) == Big(w, 3) + [v % 256] && Big(w, 3) == Big(w / 256, 2) + [w % 256];
  }

  lemma BigTwo(v: nat)
    ensures Big(v, 2) == [v / 256 % 256, v % 256]
  {
    assert Big(v / 256, 1) == Big(v / 256 / 256, 0) + [v / 256 % 256] == [v / 256 % 256];
  }

  /** The charsets that put the most significant byte first, and those that put it last. */
  predicate BigEndian(c: Charset) { c == UTF16BE || c == UCS2BE || c == UTF32BE || c == UCS4 }

  predicate LittleEndian(c: Charset) {
    c == UTF16LE || c == UCS2 || c == UCS2LE || c == UTF32LE || c == UCS4LE || c == WCHAR
  }

  function Ordered(c: Charset, s: seq<Byte>): seq<Byte> { if BigEndian(c) then s else Reversed(s) }

  /** A character of the basic plane is its code, in two bytes or in four; one beyond it is two surrogates, or four
      bytes, or nothing. */
  lemma EncodesAs(c: Charset, st: State, u: int)
    requires Scalar(u) && (BigEndian(c) || LittleEndian(c))
    ensures EncodeOne(c, st, u).1 == st
    ensures EncodeOne(c, st, u).0 ==
        if !Wide16(c) then As(Ordered(c, Big(u, 4)))
        else if u <= 0xffff then As(Ordered(c, Big(u, 2)))
        else if c == UTF16LE || c == UTF16BE then
          As(Ordered(c, Big(U.Units(u)[0], 2)) + Ordered(c, Big(U.Units(u)[1], 2)))
        else Unrepresentable
  {
    hide Put16, Put32, Big, Reversed, EncodeOne, Encode16;
    PutIs(u);
    EncodesBody(c, st, u);
    if u <= 0xffff { Encode16Low(u, LittleOut(c)); } else {
      UnitsAre(u);
      PutIs(U.Units(u)[0]); PutIs(U.Units(u)[1]);
      Encode16High(u, LittleOut(c));
    }
  }

  lemma EncodesBody(c: Charset, st: State, u: int)
    requires Scalar(u) && (BigEndian(c) || LittleEndian(c))
    ensures EncodeOne(c, st, u) ==
        (if IsUcs2(c) && u > 0xffff then Unrepresentable
         else As(if Wide16(c) then Encode16(u, LittleOut(c)) else Put32(u, LittleOut(c))), st)
    ensures LittleOut(c) == !BigEndian(c)
  {
    hide Encode16, Put32;
    var body := if Wide16(c) then Encode16(u, LittleOut(c)) else Put32(u, LittleOut(c));
    assert [] + body == body;
  }

  lemma Encode16Low(u: int, le: bool)
    requires Scalar(u) && u <= 0xffff
    ensures Encode16(u, le) == Put16(u, le)
  {
    hide Put16;
  }

  lemma Encode16High(u: int, le: bool)
    requires Scalar(u) && u > 0xffff
    ensures |U.Units(u)| == 2 && Encode16(u, le) == Put16(U.Units(u)[0], le) + Put16(U.Units(u)[1], le)
  {
    hide Put16;
  }

  lemma UnitsAre(u: int)
    requires Scalar(u) && u > 0xffff
    ensures U.Units(u) == [0xd800 + (u - 0x10000) / 1024, 0xdc00 + (u - 0x10000) % 1024]
  {
  }

  /** The charsets that name no order write a mark in front of the first character, and then little-endian. */
  lemma EncodesMarked(c: Charset, st: State, u: int)
    requires Scalar(u) && (c == UTF16 || c == UTF32)
    ensures EncodeOne(Named(c, false), st, u).0.As?
    ensures EncodeOne(c, st, u) ==
        (As((if st.outBomDone then [] else Mark(c, false)) + EncodeOne(Named(c, false), st, u).0.s),
            st.(outBomDone := true))
  {
    MarkBytes(c, false);
    var n := Named(c, false);
    assert EncodeOne(n, st, u).0.As? && EncodeOne(c, st, u).0.As?;
    EncodeShape(c, st, u); EncodeShape(n, st, u);
    assert Put16(0xfeff, true) == [0xff, 0xfe] && Put32(0xfeff, true) == [0xff, 0xfe, 0, 0];
    hide EncodeOne, Put16, Put32, Encode16, Mark;
    var body := EncodeOne(n, st, u).0.s;
    var plain := if c == UTF16 then Encode16(u, true) else Put32(u, true);
    assert body == [] + plain == plain;
    assert st.outBomDone ==> st == st.(outBomDone := true);
    var mark := if st.outBomDone then [] else Mark(c, false);
    assert EncodeOne(c, st, u).0 == As(mark + plain);
  }

  // ---- marks ----

  /** The charset that a charset without an order is, once its order is known. */
  function Named(c: Charset, be: bool): Charset
    requires c == UTF16 || c == UTF32
  {
    if c == UTF16 then (if be then UTF16BE else UTF16LE) else if be then UTF32BE else UTF32LE
  }

  function Mark(c: Charset, be: bool): seq<Byte>
    requires c == UTF16 || c == UTF32
  {
    var s := if c == UTF16 then [0xfe, 0xff] else [0, 0, 0xfe, 0xff];
    if be then s else Reversed(s)
  }

  /** A mark of either order is used up, gives no character, and says which order follows. */
  lemma MarkObeyed(c: Charset, st: State, be: bool, rest: seq<Byte>)
    requires (c == UTF16 || c == UTF32) && !st.inBomDone && !st.inBe
    ensures DecodeOne(c, st, Mark(c, be) + rest) == (Bom(|Mark(c, be)|), st.(inBomDone := true, inBe := be))
  {
    var m := Mark(c, be);
    var s := m + rest;
    MarkBytes(c, be);
    if c == UTF16 {
      assert s[0] == m[0] && s[1] == m[1];
    } else {
      assert s[0] == m[0] && s[1] == m[1] && s[2] == m[2] && s[3] == m[3];
    }
  }

  lemma MarkBytes(c: Charset, be: bool)
    requires c == UTF16 || c == UTF32
    ensures Mark(c, be) ==
        if c == UTF16 then (if be then [0xfe, 0xff] else [0xff, 0xfe])
        else if be then [0, 0, 0xfe, 0xff] else [0xff, 0xfe, 0, 0]
  {
    assert Reversed([0xfe, 0xff]) == [0xff, 0xfe];
    assert Reversed([0, 0, 0xfe, 0xff]) == [0xff, 0xfe, 0, 0];
  }

  /** After that, or where there is no mark, it is the charset of that order, little-endian without a mark. */
  lemma AfterMark(c: Charset, st: State, st': State, s: seq<Byte>)
    requires (c == UTF16 || c == UTF32) && s != []
    requires st.inBomDone || (!st.inBe && !(Mark(c, false) <= s) && !(Mark(c, true) <= s))
    ensures DecodeOne(c, st, s).0 == DecodeOne(Named(c, st.inBe), st', s).0
    ensures DecodeOne(c, st, s).1.inBe == st.inBe && DecodeOne(c, st, s).1.outBomDone == st.outBomDone
    ensures DecodeOne(c, st, s).0.Reads? || DecodeOne(c, st, s).0.Wrong? ==> DecodeOne(c, st, s).1.inBomDone
    ensures DecodeOne(Named(c, st.inBe), st', s).1 == st' && !DecodeOne(c, st, s).0.Bom?
  {
    MarkBytes(c, true); MarkBytes(c, false);
    if |s| >= 2 { TwoOf(s); }
    if |s| >= 4 { FourOf(s); }
    hide Decode16, Decode32, Get16, Get32, Mark;
  }

  lemma TwoOf(s: seq<Byte>)
    requires |s| >= 2
    ensures Get16(s, true) == 0xfeff ==> [0xff, 0xfe] <= s
    ensures Get16(s, true) == 0xfffe ==> [0xfe, 0xff] <= s
  {
  }

  lemma FourOf(s: seq<Byte>)
    requires |s| >= 4
    ensures Get32(s, true) == 0xfeff ==> [0xff, 0xfe, 0, 0] <= s
    ensures Get32(s, true) == 0xfffe_0000 ==> [0, 0, 0xfe, 0xff] <= s
  {
    var a: int, b: int, c: int, d: int := s[0], s[1], s[2], s[3];
    FourDigits(a, b, c, d);
  }

  lemma FourDigits(a: int, b: int, c: int, d: int)
    requires 0 <= a < 256 && 0 <= b < 256 && 0 <= c < 256 && 0 <= d < 256
    ensures a + b * 0x100 + c * 0x1_0000 + d * 0x100_0000 == 0xfeff ==> a == 0xff && b == 0xfe && c == 0 && d == 0
    ensures a + b * 0x100 + c * 0x1_0000 + d * 0x100_0000 == 0xfffe_0000 ==> a == 0 && b == 0 && c == 0xfe && d == 0xff
  {
  }

  // ---- whole calls ----

  /** The same but for what a descriptor remembers of its input. */
  predicate Same(r: Res, q: Res) {
    && r.used == q.used && r.out == q.out && r.why == q.why && r.irreversible == q.irreversible
    && r.ignored == q.ignored && r.st.outBomDone == q.st.outBomDone
  }

  predicate SameOut(a: Out, b: Out) {
    match a
    case NoRoom => b.NoRoom?
    case NoChar => b.NoChar?
    case Fits(s, st) => b.Fits? && b.s == s && b.st.outBomDone == st.outBomDone
  }

  lemma EncodeAlike(c: Charset, st: State, st': State, u: int)
    requires Scalar(u) && st.outBomDone == st'.outBomDone
    ensures EncodeOne(c, st, u).0 == EncodeOne(c, st', u).0
    ensures EncodeOne(c, st, u).1.outBomDone == EncodeOne(c, st', u).1.outBomDone
    ensures EncodeOne(c, st, u).1.inBe == st.inBe && EncodeOne(c, st, u).1.inBomDone == st.inBomDone
  {
  }

  lemma {:induction false} SpelledAlike(c: Charset, st: State, st': State, t: string, room: nat)
    requires st.outBomDone == st'.outBomDone && Plain(t)
    ensures SameOut(Spelled(c, st, t, room), Spelled(c, st', t, room))
    ensures var o := Spelled(c, st, t, room); o.Fits? ==> o.st.inBe == st.inBe && o.st.inBomDone == st.inBomDone
    decreases |t|
  {
    hide EncodeOne;
    if t != [] {
      var u := t[0] as int;
      EncodeAlike(c, st, st', u);
      var (e, st1) := EncodeOne(c, st, u);
      var (e', st1') := EncodeOne(c, st', u);
      if e.As? && |e.s| <= room { SpelledAlike(c, st1, st1', t[1..], room - |e.s|); }
    }
  }

  lemma PutAlike(cv: Conv, cv': Conv, st: State, st': State, u: int, room: nat)
    requires Scalar(u) && st.outBomDone == st'.outBomDone && cv.to == cv'.to && cv.translit == cv'.translit
    ensures SameOut(Put(cv, st, u, room), Put(cv', st', u, room))
    ensures var o := Put(cv, st, u, room); o.Fits? ==> o.st.inBe == st.inBe && o.st.inBomDone == st.inBomDone
  {
    hide EncodeOne, Spelled, Replacement;
    EncodeAlike(cv.to, st, st', u);
    ReplacementPlain(u);
    SpelledAlike(cv.to, st, st', Replacement(u), room);
    EncodeAlike(cv.to, st, st', '?' as int);
  }

  predicate SameTurns(a: Turn, b: Turn) {
    match a
    case Halt(st, why) => b.Halt? && b.why == why && b.st.outBomDone == st.outBomDone
    case Go(st, k, s, irr, ign) =>
        b.Go? && b.k == k && b.b == s && b.irr == irr && b.ign == ign && b.st.outBomDone == st.outBomDone
  }

  lemma TurnAlike(cv: Conv, cv': Conv, st: State, st': State, s: seq<Byte>, room: nat)
    requires (cv.from == UTF16 || cv.from == UTF32) && cv' == cv.(from := Named(cv.from, st.inBe)) && s != []
    requires st.outBomDone == st'.outBomDone
    requires st.inBomDone || (!st.inBe && !(Mark(cv.from, false) <= s) && !(Mark(cv.from, true) <= s))
    ensures SameTurns(TurnOf(cv, st, s, room), TurnOf(cv', st', s, room))
    ensures var t := TurnOf(cv, st, s, room); t.Go? ==> t.st.inBe == st.inBe && t.st.inBomDone
  {
    hide DecodeOne, EncodeOne, Put, Mark;
    AfterMark(cv.from, st, st', s);
    ReadsScalar(cv.from, st, s);
    var (d, st1) := DecodeOne(cv.from, st, s);
    if d.Reads? {
      PutAlike(cv, cv', st1, st', d.u, room);
      EncodeAlike(cv.to, st1, st', d.u);
    }
  }

  lemma {:induction false} RunAlike(cv: Conv, cv': Conv, st: State, st': State, s: seq<Byte>, room: nat)
    requires (cv.from == UTF16 || cv.from == UTF32) && cv' == cv.(from := Named(cv.from, st.inBe))
    requires st.outBomDone == st'.outBomDone
    requires st.inBomDone || (!st.inBe && !(Mark(cv.from, false) <= s) && !(Mark(cv.from, true) <= s))
    ensures Same(Run(cv, st, s, room), Run(cv', st', s, room))
    decreases |s|
  {
    hide TurnOf, Mark, Run;
    if s == [] {
      RunEmpty(cv, st, room); RunEmpty(cv', st', room);
    } else {
      TurnAlike(cv, cv', st, st', s, room);
      var t, t' := TurnOf(cv, st, s, room), TurnOf(cv', st', s, room);
      if t.Go? {
        RunGo(cv, st, s, room, t); RunGo(cv', st', s, room, t');
        RunAlike(cv, cv', t.st, t'.st, s[t.k..], room - |t.b|);
      } else {
        RunHalt(cv, st, s, room); RunHalt(cv', st', s, room);
      }
    }
  }

  /** A fresh descriptor that reads a mark, of either order, and then a text does what one does that reads the text
      as of that order: for every text, well-formed or not, with every option and any room. */
  lemma MarkedText(cv: Conv, be: bool, s: seq<Byte>, room: nat)
    requires cv.from == UTF16 || cv.from == UTF32
    ensures var m := Mark(cv.from, be);
            Same(Run(cv, FRESH, m + s, room),
                After(|m|, [], 0, false, Run(cv.(from := Named(cv.from, be)), FRESH, s, room)))
  {
    hide Run, DecodeOne;
    var m, st := Mark(cv.from, be), FRESH.(inBomDone := true, inBe := be);
    MarkBytes(cv.from, be);
    MarkObeyed(cv.from, FRESH, be, s);
    MarkTurn(cv, be, s, room);
    RunGo(cv, FRESH, m + s, room, Go(st, |m|, [], 0, false));
    assert (m + s)[|m|..] == s;
    RunAlike(cv, cv.(from := Named(cv.from, be)), st, FRESH, s, room);
  }

  lemma MarkTurn(cv: Conv, be: bool, s: seq<Byte>, room: nat)
    requires (cv.from == UTF16 || cv.from == UTF32) && Mark(cv.from, be) != []
    requires DecodeOne(cv.from, FRESH, Mark(cv.from, be) + s)
        == (Bom(|Mark(cv.from, be)|), FRESH.(inBomDone := true, inBe := be))
    ensures TurnOf(cv, FRESH, Mark(cv.from, be) + s, room)
        == Go(FRESH.(inBomDone := true, inBe := be), |Mark(cv.from, be)|, [], 0, false)
  {
    hide DecodeOne, Mark;
  }

  /** And one that reads a text without a mark takes it as little-endian. */
  lemma UnmarkedText(cv: Conv, s: seq<Byte>, room: nat)
    requires (cv.from == UTF16 || cv.from == UTF32) && !(Mark(cv.from, false) <= s) && !(Mark(cv.from, true) <= s)
    ensures Same(Run(cv, FRESH, s, room), Run(cv.(from := Named(cv.from, false)), FRESH, s, room))
  {
    RunAlike(cv, cv.(from := Named(cv.from, false)), FRESH, FRESH, s, room);
  }

  /** FE FF 00 41 is the letter A. */
  lemma BigEndianA(room: nat)
    requires room >= 1
    ensures Run(Conv(UTF16, UTF8, false, false), FRESH, [0xfe, 0xff, 0x00, 0x41], room).out == [0x41]
  {
    var cv, s: seq<Byte> := Conv(UTF16BE, UTF8, false, false), [0x00, 0x41];
    MarkBytes(UTF16, true);
    MarkedText(Conv(UTF16, UTF8, false, false), true, s, room);
    assert [0xfe, 0xff] + s == [0xfe, 0xff, 0x00, 0x41];
    hide DecodeOne, EncodeOne, Run, Mark, TurnOf;
    TurnA(room);
    var t := TurnOf(cv, FRESH, s, room);
    RunGo(cv, FRESH, s, room, t);
    RunEmpty(cv, FRESH, room - 1);
    assert s[2..] == [];
  }

  lemma TurnA(room: nat)
    requires room >= 1
    ensures TurnOf(Conv(UTF16BE, UTF8, false, false), FRESH, [0x00, 0x41], room) == Go(FRESH, 2, [0x41], 0, false)
  {
    assert DecodeOne(UTF16BE, FRESH, [0x00, 0x41]) == (Reads(0x41, 2), FRESH);
    assert EncodeOne(UTF8, FRESH, 0x41) == (As([0x41]), FRESH);
    hide DecodeOne, EncodeOne;
  }

  // ---- the 8-bit charsets ----

  /** Windows-1252 between 80 and 9F, in the order of the code points. */
  const WINDOWS: seq<(int, int)> := [
    (0x0152, 0x8c), (0x0153, 0x9c), (0x0160, 0x8a), (0x0161, 0x9a), (0x0178, 0x9f), (0x017d, 0x8e), (0x017e, 0x9e),
    (0x0192, 0x83), (0x02c6, 0x88), (0x02dc, 0x98), (0x2013, 0x96), (0x2014, 0x97), (0x2018, 0x91), (0x2019, 0x92),
    (0x201a, 0x82), (0x201c, 0x93), (0x201d, 0x94), (0x201e, 0x84), (0x2020, 0x86), (0x2021, 0x87), (0x2022, 0x95),
    (0x2026, 0x85), (0x2030, 0x89), (0x2039, 0x8b), (0x203a, 0x9b), (0x20ac, 0x80), (0x2122, 0x99)]

  /** ISO 8859-15 where it differs from ISO 8859-1. */
  const LATIN9: seq<(int, int)> := [
    (0x0152, 0xbc), (0x0153, 0xbd), (0x0160, 0xa6), (0x0161, 0xa8), (0x0178, 0xbe), (0x017d, 0xb4), (0x017e, 0xb8),
    (0x20ac, 0xa4)]

  lemma WindowsIs(i: nat)
    requires i < |WINDOWS|
    ensures DecodeNarrow(CP1252, WINDOWS[i].1) == Reads(WINDOWS[i].0, 1)
  {
    assert CP1252_HIGH[WINDOWS[i].1 - 0x80] == WINDOWS[i].0;
  }

  /** The other bytes are as in ISO 8859-1, but for five that are nothing. */
  lemma WindowsRest(b: Byte)
    requires forall i | 0 <= i < |WINDOWS| :: WINDOWS[i].1 != b
    ensures DecodeNarrow(CP1252, b) == if b in [0x81, 0x8d, 0x8f, 0x90, 0x9d] then Wrong else Reads(b, 1)
  {
    if 0x80 <= b < 0xa0 && b !in [0x81, 0x8d, 0x8f, 0x90, 0x9d] {
      var i := WindowsAt(b);
      assert false;
    }
  }

  lemma WindowsAt(b: Byte) returns (i: nat)
    requires 0x80 <= b < 0xa0 && b !in [0x81, 0x8d, 0x8f, 0x90, 0x9d]
    ensures i < |WINDOWS| && WINDOWS[i].1 == b
  {
    var at := [25, 0, 14, 7, 17, 21, 18, 19, 8, 22, 2, 23, 0, 0, 5, 0, 0, 12, 13, 15, 16, 20, 10, 11, 9, 26, 3, 24, 1,
        0, 6, 4];
    i := at[b - 0x80];
  }

  /** What stands in for a character with //TRANSLIT: spaces, dashes, quotation marks, letters and signs. */
  function StandIn(u: int): string {
    if u in [0xa0, 0x2002, 0x2003, 0x2009] then " "
    else if u in [0xad, 0x2010, 0x2011, 0x2012, 0x2013, 0x2014, 0x2212] then "-"
    else if u in [0x2018, 0x2019] then "'"
    else if u in [0x201c, 0x201d] then "\""
    else Sign(u)
  }

  function Sign(u: int): string {
    match u
    case 0xa9 => "(C)" case 0xae => "(R)" case 0x2122 => "(TM)" case 0x20ac => "EUR"
    case 0xbc => " 1/4 " case 0xbd => " 1/2 " case 0xbe => " 3/4 "
    case 0xc6 => "AE" case 0xe6 => "ae" case 0x152 => "OE" case 0x153 => "oe" case 0xdf => "ss" case 0xb5 => "u"
    case 0xab => "<<" case 0xbb => ">>" case 0x2039 => "<" case 0x203a => ">" case 0x2190 => "<-" case 0x2192 => "->"
    case 0x201a => "," case 0x201e => ",," case 0x2026 => "..." case 0xb7 => "." case 0x2022 => "o" case 0xd7 => "x"
    case _ => "?"
  }

  lemma TranslitIs(u: int)
    ensures Replacement(u) == StandIn(u)
  {
    hide Find;
    var i := Find(TRANSLIT_OF, u, TRANSLITS);
    if i < TRANSLITS {
      Listed(i);
    } else {
      assert TRANSLIT_OF[..TRANSLITS] == TRANSLIT_OF;
      NoStandIn(u);
    }
  }

  lemma Listed(i: nat)
    requires i < TRANSLITS
    ensures StandIn(TRANSLIT_OF[i]) == TRANSLIT_AS[i]
  {
    var u, s := TRANSLIT_OF[i], TRANSLIT_AS[i];
    if i in [0, 17, 18, 19] { assert s == " "; }
    else if i == 3 || 20 <= i < 25 || i == 39 { assert s == "-"; }
    else if i in [25, 26, 28, 29] { assert StandIn(u) == s; }
    else if i < 17 { ListedLow(i); }
    else { ListedHigh(i); }
  }

  lemma ListedLow(i: nat)
    requires 0 < i < 17 && i != 3
    ensures StandIn(TRANSLIT_OF[i]) == TRANSLIT_AS[i]
  {
    assert StandIn(TRANSLIT_OF[i]) == Sign(TRANSLIT_OF[i]);
    if i < 9 { } else { }
  }

  lemma ListedHigh(i: nat)
    requires i == 27 || 30 <= i < 39
    ensures StandIn(TRANSLIT_OF[i]) == TRANSLIT_AS[i]
  {
    hide StandIn;
    HighSigns(i);
    if i < 33 { } else { }
  }

  lemma HighSigns(i: nat)
    requires i == 27 || 30 <= i < 39
    ensures StandIn(TRANSLIT_OF[i]) == Sign(TRANSLIT_OF[i])
  {
    hide Sign;
  }

  lemma NoStandIn(u: int)
    requires u !in TRANSLIT_OF
    ensures StandIn(u) == "?"
  {
  }

  lemma Latin9Is(i: nat)
    requires i < |LATIN9|
    ensures DecodeNarrow(Charset.LATIN9, LATIN9[i].1) == Reads(LATIN9[i].0, 1)
  {
    var at := [5, 6, 1, 2, 7, 3, 4, 0];
    assert LATIN9_AT[at[i]] == LATIN9[i].1 && LATIN9_IS[at[i]] == LATIN9[i].0;
    forall j, k | 0 <= j < k < 8 ensures LATIN9_AT[j] != LATIN9_AT[k] { }
  }

  lemma Latin9Rest(b: Byte)
    requires forall i | 0 <= i < |LATIN9| :: LATIN9[i].1 != b
    ensures DecodeNarrow(Charset.LATIN9, b) == Reads(b, 1)
  {
    var at := [7, 2, 3, 5, 6, 0, 1, 4];
    forall j | 0 <= j < 8 ensures LATIN9_AT[j] != b { assert LATIN9[at[j]].1 == LATIN9_AT[j]; }
    assert b !in LATIN9_AT[..8];
  }

  lemma PlainBytes(b: Byte)
    ensures DecodeNarrow(ASCII, b) == (if b < 0x80 then Reads(b, 1) else Wrong)
        && DecodeNarrow(LATIN1, b) == Reads(b, 1)
  {
  }
}
