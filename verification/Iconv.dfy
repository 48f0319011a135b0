/** Character sets as src/iconv.c decodes and encodes them, one character at a time. */
module Iconv {
  import opened Utf8

  datatype Charset =
    | UTF8 | ASCII | LATIN1 | LATIN9 | CP1252
    | UTF16 | UTF16LE | UTF16BE | UCS2 | UCS2LE | UCS2BE
    | UTF32 | UTF32LE | UTF32BE | UCS4 | UCS4LE | WCHAR

  predicate Narrow(c: Charset) { c.ASCII? || c.LATIN1? || c.LATIN9? || c.CP1252? }

  predicate Wide16(c: Charset) { c.UTF16? || c.UTF16LE? || c.UTF16BE? || IsUcs2(c) }

  predicate IsUcs2(c: Charset) { c.UCS2? || c.UCS2LE? || c.UCS2BE? }

  /** What a descriptor remembers between calls. */
  datatype State = State(inBe: bool, inBomDone: bool, outBomDone: bool)

  const FRESH := State(false, false, false)

  // ---- tables ----

  const CP1252_HIGH: seq<int> := [
    0x20ac, 0, 0x201a, 0x0192, 0x201e, 0x2026, 0x2020, 0x2021,
    0x02c6, 0x2030, 0x0160, 0x2039, 0x0152, 0, 0x017d, 0,
    0, 0x2018, 0x2019, 0x201c, 0x201d, 0x2022, 0x2013, 0x2014,
    0x02dc, 0x2122, 0x0161, 0x203a, 0x0153, 0, 0x017e, 0x0178]

  /** Bytes at which ISO 8859-15 differs from ISO 8859-1, and what they mean. */
  const LATIN9_AT: seq<Byte> := [0xa4, 0xa6, 0xa8, 0xb4, 0xb8, 0xbc, 0xbd, 0xbe]
  const LATIN9_IS: seq<int> := [0x20ac, 0x0160, 0x0161, 0x017d, 0x017e, 0x0152, 0x0153, 0x0178]

  /** The last of the first n places that holds x, or n. */
  function Find<T(==)>(t: seq<T>, x: T, n: nat): (i: nat)
    requires n <= |t|
    ensures i <= n && (i < n ==> t[i] == x) && (i == n ==> x !in t[..n])
    decreases n
  {
    if n == 0 then 0
    else if t[n - 1] == x then n - 1
    else
      var i := Find(t, x, n - 1);
      if i == n - 1 then n else i
  }

  // ---- decoding ----

  /** u in k bytes, a byte order mark of k bytes, or nothing. */
  datatype Decoded = Reads(u: int, k: nat) | Bom(k: nat) | Wrong | Short

  /** The other bytes from i on. */
  function Tail(s: seq<Byte>, k: nat, i: nat, v: nat): Decoded
    requires i <= k
    decreases k - i
  {
    if i == k then (if Allowed(k, v) then Reads(v, k) else Wrong)
    else if i >= |s| then Short
    else if !(0x80 <= s[i] < 0xc0) then Wrong
    else Tail(s, k, i + 1, v * 64 + s[i] % 64)
  }

  /** No form but the shortest, nothing beyond U+10FFFF, no surrogate. */
  predicate Allowed(k: nat, v: nat) {
    && !(k == 3 && v < 0x800) && !(k == 4 && (v < 0x10000 || v > 0x10ffff)) && !(0xd800 <= v <= 0xdfff)
  }

  function DecodeUtf8(s: seq<Byte>): Decoded
    requires s != []
  {
    if s[0] < 0x80 then Reads(s[0], 1)
    else
      var k := Announced(s[0]);
      if k == 0 then Wrong else Tail(s, k, 1, LeadBits(s[0], k))
  }

  function DecodeNarrow(c: Charset, b: Byte): Decoded
    requires Narrow(c)
  {
    match c
    case ASCII => if b > 0x7f then Wrong else Reads(b, 1)
    case LATIN9 => var i := Find(LATIN9_AT, b, 8); Reads(if i < 8 then LATIN9_IS[i] else b, 1)
    case CP1252 =>
      if 0x80 <= b < 0xa0 then (if CP1252_HIGH[b - 0x80] == 0 then Wrong else Reads(CP1252_HIGH[b - 0x80], 1))
          else Reads(b, 1)
    case _ => Reads(b, 1)
  }

  function Get16(s: seq<Byte>, le: bool): nat
    requires |s| >= 2
  {
    var a: int, b: int := s[0], s[1];
    if le then a + b * 256 else a * 256 + b
  }

  function Get32(s: seq<Byte>, le: bool): nat
    requires |s| >= 4
  {
    var a: int, b: int, c: int, d: int := s[0], s[1], s[2], s[3];
    if le then a + b * 0x100 + c * 0x1_0000 + d * 0x100_0000 else a * 0x100_0000 + b * 0x1_0000 + c * 0x100 + d
  }

  /** Little-endian unless named or marked otherwise. */
  predicate LittleIn(c: Charset, st: State) {
    c.UTF16LE? || c.UCS2LE? || c.UCS2? || c.UTF32LE? || c.UCS4LE? || c.WCHAR? || ((c.UTF16? || c.UTF32?) && !st.inBe)
  }

  function Decode16(c: Charset, le: bool, s: seq<Byte>): Decoded
    requires |s| >= 2
  {
    var u := Get16(s, le);
    if IsUcs2(c) then (if 0xd800 <= u <= 0xdfff then Wrong else Reads(u, 2))
    else if 0xdc00 <= u <= 0xdfff then Wrong
    else if 0xd800 <= u <= 0xdbff then
      if |s| < 4 then Short
      else
        var l := Get16(s[2..], le);
        if 0xdc00 <= l <= 0xdfff then Reads(0x10000 + (u - 0xd800) * 1024 + (l - 0xdc00), 4) else Wrong
    else Reads(u, 2)
  }

  function Decode32(le: bool, s: seq<Byte>): Decoded
    requires |s| >= 4
  {
    var u := Get32(s, le);
    if u > 0x10ffff || 0xd800 <= u <= 0xdfff then Wrong else Reads(u, 4)
  }

  /** A byte order mark is looked for once, at the start. */
  predicate LooksForMark(c: Charset, st: State) { (c.UTF16? || c.UTF32?) && !st.inBomDone }

  /** One character in charset c, and what is remembered after looking at it. */
  function DecodeOne(c: Charset, st: State, s: seq<Byte>): (Decoded, State)
    requires s != []
  {
    if c.UTF8? then (DecodeUtf8(s), st)
    else if Narrow(c) then (DecodeNarrow(c, s[0]), st)
    else
      var n := if Wide16(c) then 2 else 4;
      if |s| < n then (Short, st)
      else
        var le := LittleIn(c, st);
        var u := if n == 2 then Get16(s, le) else Get32(s, le);
        var st' := if LooksForMark(c, st) then st.(inBomDone := true) else st;
        if LooksForMark(c, st) && u == 0xfeff then (Bom(n), st')
        else if LooksForMark(c, st) && u == (if n == 2 then 0xfffe else 0xfffe_0000) then (Bom(n), st'.(inBe := true))
        else (if n == 2 then Decode16(c, le, s) else Decode32(le, s), st')
  }

  // ---- encoding ----

  /** The bytes of a character, or none when the charset has no such character. */
  datatype Encoding = As(s: seq<Byte>) | Unrepresentable

  function EncodeNarrow(c: Charset, u: int): Encoding
    requires Narrow(c) && Scalar(u)
  {
    match c
    case ASCII => if u < 0x80 then As([u]) else Unrepresentable
    case LATIN9 =>
      var i := Find(LATIN9_IS, u, 8);
      if i < 8 then As([LATIN9_AT[i]]) else if u < 0x100 && u !in LATIN9_AT then As([u]) else Unrepresentable
    case CP1252 =>
      var i := Find(CP1252_HIGH, u, 32);
      if u != 0 && i < 32 then As([0x80 + i]) else if u < 0x80 || 0xa0 <= u < 0x100 then As([u]) else Unrepresentable
    case _ => if u < 0x100 then As([u]) else Unrepresentable
  }

  function Put16(v: nat, le: bool): (s: seq<Byte>)
    requires v < 0x10000
    ensures |s| == 2
  {
    if le then [v % 256, v / 256] else [v / 256, v % 256]
  }

  function Put32(v: nat, le: bool): (s: seq<Byte>)
    requires v < 0x1_0000_0000
    ensures |s| == 4
  {
    var a, b, c, d := v % 256, v / 0x100 % 256, v / 0x1_0000 % 256, v / 0x100_0000;
    if le then [a, b, c, d] else [d, c, b, a]
  }

  predicate LittleOut(c: Charset) { !(c.UTF16BE? || c.UCS2BE? || c.UTF32BE? || c.UCS4?) }

  function Encode16(u: int, le: bool): seq<Byte>
    requires Scalar(u)
  {
    if u <= 0xffff then Put16(u, le)
        else Put16(0xd800 + (u - 0x10000) / 1024, le) + Put16(0xdc00 + (u - 0x10000) % 1024, le)
  }

  /** One character in charset c, after a byte order mark if one is due, and what is remembered then. */
  function EncodeOne(c: Charset, st: State, u: int): (Encoding, State)
    requires Scalar(u)
  {
    if c.UTF8? then (As(Encode(u)), st)
    else if Narrow(c) then (EncodeNarrow(c, u), st)
    else if IsUcs2(c) && u > 0xffff then (Unrepresentable, st)
    else
      var le := LittleOut(c);
      var due := (c.UTF16? || c.UTF32?) && !st.outBomDone;
      var mark := if !due then [] else if Wide16(c) then Put16(0xfeff, le) else Put32(0xfeff, le);
      (As(mark + if Wide16(c) then Encode16(u, le) else Put32(u, le)), if due then st.(outBomDone := true) else st)
  }

  // ---- what decoding and encoding have to do with each other ----

  /** UTF-8 is read here exactly as `mbrtowc` reads it, except that a wrong second byte may be noticed
      only when the character is complete. */
  lemma SameUtf8(s: seq<Byte>)
    requires s != []
    ensures var d, o := DecodeUtf8(s), Decode(INITIAL, s);
            && (d.Reads? <==> o.Got?) && (d.Reads? ==> o == Got(d.u, d.k))
            && (o.Incomplete? ==> d.Short?) && (d.Wrong? ==> o.Illegal?) && !d.Bom?
  {
    var k := Announced(s[0]);
    if s[0] >= 0x80 && k > 0 {
      var c := LeadBits(s[0], k);
      assert Begin(s[0]) == More(Mb(c, k - 1, s[0]));
      assert Decode(INITIAL, s) == Later(Decode(Mb(c, k - 1, s[0]), s[1..]), 1);
      hide Decode, Tail, Allowed;
      SameTail(s, k, c);
    }
  }

  /** What the second byte may be is what the value may be. */
  lemma SameTail(s: seq<Byte>, k: nat, c: nat)
    requires s != [] && 0xc2 <= s[0] <= 0xf4 && k == Announced(s[0]) && c == LeadBits(s[0], k)
    ensures var d, o := Tail(s, k, 1, c), Later(Decode(Mb(c, k - 1, s[0]), s[1..]), 1);
            && (d.Reads? <==> o.Got?) && (d.Reads? ==> o == Got(d.u, d.k))
            && (o.Incomplete? ==> d.Short?) && (d.Wrong? ==> o.Illegal?) && !d.Bom?
  {
    if |s| > 1 && 0x80 <= s[1] < 0xc0 {
      var v: nat := c * 64 + s[1] % 64;
      assert s[1..][0] == s[1] && s[1..][1..] == s[2..];
      if k == 2 {
        assert Allowed(k, v);
      } else {
        PlainTail(s, k, 2, v);
        var o := Decode(Mb(v, k - 2, 0), s[2..]);
        if o.Got? { SecondAllowed(s[0], k, s[1], v, o.c); }
        hide Allowed;
        assert Decode(Mb(c, k - 1, s[0]), s[1..]) == if SecondOk(s[0], s[1]) then Later(o, 1) else Illegal;
      }
    }
  }

  lemma SecondAllowed(b: Byte, k: nat, b1: Byte, v: nat, w: nat)
    requires 0xe0 <= b <= 0xf4 && k == Announced(b) && 0x80 <= b1 < 0xc0 && v == LeadBits(b, k) * 64 + b1 % 64
    requires if k == 3 then v * 64 <= w < v * 64 + 64 else v * 4096 <= w < v * 4096 + 4096
    ensures Allowed(k, w) <==> SecondOk(b, b1)
  {
    if k == 3 {
      assert b % 16 == b - 0xe0 && b1 % 64 == b1 - 0x80;
    } else {
      assert b % 8 == b - 0xf0 && b1 % 64 == b1 - 0x80;
    }
  }

  /** The bytes after the second. */
  lemma {:induction false} PlainTail(s: seq<Byte>, k: nat, i: nat, v: nat)
    requires i < k <= i + 2 && i <= |s|
    ensures var d, o := Tail(s, k, i, v), Decode(Mb(v, k - i, 0), s[i..]);
            && (o.Incomplete? ==> d.Short?) && (o.Illegal? ==> d.Wrong?)
            && (o.Got? ==>
                  && o.used == k - i && o.c >= 0 && d == (if Allowed(k, o.c) then Reads(o.c, k) else Wrong)
                  && if k - i == 1 then v * 64 <= o.c < v * 64 + 64 else v * 4096 <= o.c < v * 4096 + 4096)
    decreases k - i
  {
    hide Allowed;
    if i < |s| && 0x80 <= s[i] < 0xc0 {
      assert s[i..][0] == s[i] && s[i..][1..] == s[i + 1..];
      if i + 1 < k { PlainTail(s, k, i + 1, v * 64 + s[i] % 64); }
    }
  }

  /** What was decided does not depend on what follows. */
  lemma Stable(c: Charset, st: State, a: seq<Byte>, b: seq<Byte>)
    requires a != [] && !DecodeOne(c, st, a).0.Short?
    ensures DecodeOne(c, st, a + b) == DecodeOne(c, st, a)
  {
    assert (a + b)[0] == a[0];
    if c.UTF8? {
      var k := Announced(a[0]);
      if a[0] >= 0x80 && k > 0 { TailStable(a, b, k, 1, LeadBits(a[0], k)); }
    } else if !Narrow(c) {
      hide Decode16, Decode32, Get16, Get32, LittleIn;
      if Wide16(c) { Stable16(c, LittleIn(c, st), a, b); } else { Stable32(LittleIn(c, st), a, b); }
    }
  }

  lemma Stable16(c: Charset, le: bool, a: seq<Byte>, b: seq<Byte>)
    requires |a| >= 2
    ensures Get16(a + b, le) == Get16(a, le)
    ensures !Decode16(c, le, a).Short? ==> Decode16(c, le, a + b) == Decode16(c, le, a)
  {
    assert (a + b)[0] == a[0] && (a + b)[1] == a[1];
    if |a| >= 4 { assert (a + b)[2..][0] == a[2..][0] && (a + b)[2..][1] == a[2..][1]; }
  }

  lemma Stable32(le: bool, a: seq<Byte>, b: seq<Byte>)
    requires |a| >= 4
    ensures Get32(a + b, le) == Get32(a, le) && Decode32(le, a + b) == Decode32(le, a)
  {
    assert (a + b)[..4] == a[..4];
    assert forall i | 0 <= i < 4 :: (a + b)[i] == a[i];
  }

  lemma {:induction false} TailStable(a: seq<Byte>, b: seq<Byte>, k: nat, i: nat, v: nat)
    requires i <= k && !Tail(a, k, i, v).Short?
    ensures Tail(a + b, k, i, v) == Tail(a, k, i, v)
    decreases k - i
  {
    hide Allowed;
    if i < k && i < |a| && 0x80 <= a[i] < 0xc0 { TailStable(a, b, k, i + 1, v * 64 + a[i] % 64); }
  }

  /** Looking at something that is not a byte order mark leaves nothing behind that would make it look
      different the next time, whatever follows then. */
  lemma Redecode(c: Charset, st: State, a: seq<Byte>, b: seq<Byte>)
    requires a != [] && !DecodeOne(c, st, a).0.Bom?
    ensures DecodeOne(c, DecodeOne(c, st, a).1, a + b) == DecodeOne(c, st, a + b)
  {
    if !c.UTF8? && !Narrow(c) && |a| >= 2 {
      assert (a + b)[0] == a[0] && (a + b)[1] == a[1];
      if |a| >= 4 { assert (a + b)[2] == a[2] && (a + b)[3] == a[3]; }
      hide Decode16, Decode32;
    }
  }

  /** A character read is a scalar value, and some of the input. */
  lemma ReadsScalar(c: Charset, st: State, s: seq<Byte>)
    requires s != []
    ensures var d := DecodeOne(c, st, s).0;
            (d.Reads? ==> Scalar(d.u) && 1 <= d.k <= |s|) && (d.Bom? ==> 1 <= d.k <= |s|)
  {
    if c.UTF8? {
      hide DecodeUtf8, Decode;
      SameUtf8(s);
      if DecodeUtf8(s).Reads? { DecodeSound(s); OwnBytes(INITIAL, s); }
    } else if Narrow(c) {
      NarrowScalar(c, s[0]);
    }
  }

  lemma NarrowScalar(c: Charset, b: Byte)
    requires Narrow(c)
    ensures DecodeNarrow(c, b).Reads? ==> Scalar(DecodeNarrow(c, b).u) && DecodeNarrow(c, b).k == 1
    ensures !DecodeNarrow(c, b).Bom?
  {
    assert forall i | 0 <= i < 32 :: 0 <= CP1252_HIGH[i] < 0xd800;
    assert forall i | 0 <= i < 8 :: 0 <= LATIN9_IS[i] < 0xd800;
  }

  // ---- decoding inverts encoding ----

  /** A descriptor that has read what another has written so far. */
  predicate InStep(c: Charset, inp: State, out: State) {
    c.UTF16? || c.UTF32? ==> !inp.inBe && inp.inBomDone == out.outBomDone
  }

  /** The byte order mark in front of a character. */
  function MarkLength(c: Charset, out: State): nat {
    if out.outBomDone then 0 else if c.UTF16? then 2 else if c.UTF32? then 4 else 0
  }

  /** What `encode` writes, `decode` reads: first the mark, if any, then the character. */
  lemma DecodeEncode(c: Charset, inp: State, out: State, u: int, rest: seq<Byte>)
    requires Scalar(u) && InStep(c, inp, out) && EncodeOne(c, out, u).0.As?
    ensures var s, n := EncodeOne(c, out, u).0.s, MarkLength(c, out);
            var inp' := if n > 0 then inp.(inBomDone := true) else inp;
            && n < |s| && InStep(c, inp', EncodeOne(c, out, u).1)
            && (n > 0 ==> DecodeOne(c, inp, s + rest) == (Bom(n), inp'))
            && DecodeOne(c, inp', s[n..] + rest) == (Reads(u, |s| - n), inp')
  {
    var s, n := EncodeOne(c, out, u).0.s, MarkLength(c, out);
    if c.UTF8? {
      hide Encode, Decode, DecodeUtf8;
      DecodeEncoded(u);
      Decided(INITIAL, s, rest);
      SameUtf8(s + rest);
      assert s[0..] == s;
    } else if Narrow(c) {
      NarrowInverse(c, u);
      assert s[0..] + rest == s + rest;
    } else {
      var le := LittleOut(c);
      WideParts(c, inp, out, u, rest);
    }
  }

  lemma NarrowInverse(c: Charset, u: int)
    requires Narrow(c) && Scalar(u) && EncodeNarrow(c, u).As?
    ensures |EncodeNarrow(c, u).s| == 1 && DecodeNarrow(c, EncodeNarrow(c, u).s[0]) == Reads(u, 1)
  {
    if c.LATIN9? {
      var i := Find(LATIN9_IS, u, 8);
      if i < 8 { assert Find(LATIN9_AT, LATIN9_AT[i], 8) == i; }
    }
  }

  lemma WideParts(c: Charset, inp: State, out: State, u: int, rest: seq<Byte>)
    requires !c.UTF8? && !Narrow(c) && Scalar(u) && InStep(c, inp, out) && EncodeOne(c, out, u).0.As?
    ensures var s, n := EncodeOne(c, out, u).0.s, MarkLength(c, out);
            var inp' := if n > 0 then inp.(inBomDone := true) else inp;
            && n < |s| && InStep(c, inp', EncodeOne(c, out, u).1)
            && (n > 0 ==> DecodeOne(c, inp, s + rest) == (Bom(n), inp'))
            && DecodeOne(c, inp', s[n..] + rest) == (Reads(u, |s| - n), inp')
  {
    var s, n, le := EncodeOne(c, out, u).0.s, MarkLength(c, out), LittleOut(c);
    var inp' := if n > 0 then inp.(inBomDone := true) else inp;
    EncodeShape(c, out, u);
    Endian(c, inp, out); Endian(c, inp', EncodeOne(c, out, u).1);
    hide EncodeOne, DecodeOne, LittleIn, LittleOut, Put16, Put32, Encode16;
    BodyRead(c, inp', le, u, rest);
    var body := if Wide16(c) then Encode16(u, le) else Put32(u, le);
    assert s[n..] == body && |body| > 0;
    if n > 0 {
      MarkRead(c, inp, le, body + rest);
      assert s + rest == s[..n] + (body + rest);
    }
  }

  lemma EncodeShape(c: Charset, out: State, u: int)
    requires !c.UTF8? && !Narrow(c) && Scalar(u) && EncodeOne(c, out, u).0.As?
    ensures var (e, out') := EncodeOne(c, out, u); var le, n := LittleOut(c), MarkLength(c, out);
            var mark := if n == 0 then [] else if Wide16(c) then Put16(0xfeff, le) else Put32(0xfeff, le);
            && |mark| == n && e.s == mark + (if Wide16(c) then Encode16(u, le) else Put32(u, le))
            && out' == (if n > 0 then out.(outBomDone := true) else out) && (IsUcs2(c) ==> u <= 0xffff)
            && (n > 0 ==> !out.outBomDone && (Wide16(c) <==> n == 2) && (c.UTF16? || c.UTF32?))
  {
    hide Put16, Put32, Encode16, LittleOut;
  }

  lemma Endian(c: Charset, inp: State, out: State)
    requires !c.UTF8? && !Narrow(c) && InStep(c, inp, out)
    ensures LittleIn(c, inp) == LittleOut(c) && (LooksForMark(c, inp) <==> MarkLength(c, out) > 0)
  {
  }

  lemma BodyRead(c: Charset, inp: State, le: bool, u: int, rest: seq<Byte>)
    requires !c.UTF8? && !Narrow(c) && Scalar(u) && (IsUcs2(c) ==> u <= 0xffff) && LittleIn(c, inp) == le
        && !LooksForMark(c, inp)
    ensures var body := if Wide16(c) then Encode16(u, le) else Put32(u, le);
            |body| > 0 && DecodeOne(c, inp, body + rest) == (Reads(u, |body|), inp)
  {
    hide LittleIn, Get16, Get32, Put16, Put32, Encode16, Decode16, Decode32;
    if Wide16(c) { BodyBack16(c, le, u, rest); } else { BodyBack32(le, u, rest); }
  }

  lemma MarkRead(c: Charset, inp: State, le: bool, rest: seq<Byte>)
    requires LooksForMark(c, inp) && LittleIn(c, inp) == le
    ensures var n, mark := if Wide16(c) then 2 else 4, if Wide16(c) then Put16(0xfeff, le) else Put32(0xfeff, le);
            DecodeOne(c, inp, mark + rest) == (Bom(n), inp.(inBomDone := true))
  {
    hide LittleIn, Get16, Get32, Put16, Put32;
    if Wide16(c) { GetPut16(0xfeff, le, rest); } else { GetPut32(0xfeff, le, rest); }
  }

  lemma GetPut16(v: nat, le: bool, rest: seq<Byte>)
    requires v < 0x10000
    ensures Get16(Put16(v, le) + rest, le) == v
  {
  }

  lemma GetPut32(v: nat, le: bool, rest: seq<Byte>)
    requires v < 0x1_0000_0000
    ensures Get32(Put32(v, le) + rest, le) == v
  {
    FourBytesOf(v);
    var s := Put32(v, le) + rest;
    assert s[0] == Put32(v, le)[0] && s[1] == Put32(v, le)[1] && s[2] == Put32(v, le)[2] && s[3] == Put32(v, le)[3];
  }

  lemma FourBytesOf(v: nat)
    requires v < 0x1_0000_0000
    ensures v == v % 256 + v / 0x100 % 256 * 0x100 + v / 0x1_0000 % 256 * 0x1_0000 + v / 0x100_0000 * 0x100_0000
        && v / 0x100_0000 < 256
  {
    assert v / 0x1_0000 == v / 0x100 / 256 && v / 0x100_0000 == v / 0x1_0000 / 256;
  }

  lemma BodyBack16(c: Charset, le: bool, u: int, rest: seq<Byte>)
    requires Scalar(u) && (IsUcs2(c) ==> u <= 0xffff)
    ensures Decode16(c, le, Encode16(u, le) + rest) == Reads(u, |Encode16(u, le)|) && |Encode16(u, le)| >= 2
  {
    hide Get16, Put16;
    if u <= 0xffff {
      GetPut16(u, le, rest);
    } else {
      var hi, lo := 0xd800 + (u - 0x10000) / 1024, 0xdc00 + (u - 0x10000) % 1024;
      var s := Encode16(u, le) + rest;
      assert s == Put16(hi, le) + (Put16(lo, le) + rest) && s[2..] == Put16(lo, le) + rest;
      GetPut16(hi, le, Put16(lo, le) + rest);
      GetPut16(lo, le, rest);
    }
  }

  lemma BodyBack32(le: bool, u: int, rest: seq<Byte>)
    requires Scalar(u)
    ensures Decode32(le, Put32(u, le) + rest) == Reads(u, 4)
  {
    hide Get32, Put32;
    GetPut32(u, le, rest);
  }
}
