/** `iconv` itself, src/iconv.c: the descriptor, whose byte order fields every call updates. */
module IconvCode {
  import opened Utf8
  import opened Iconv
  import opened IconvRun

  method ReadUtf8(s: seq<Byte>) returns (d: Decoded)
    requires s != []
    ensures d == DecodeUtf8(s)
  {
    hide Allowed;
    var b := s[0];
    if b < 0x80 { return Reads(b, 1); }
    var k := if b >= 0xf0 then 4 else if b >= 0xe0 then 3 else if b >= 0xc2 then 2 else 0;
    if k == 0 || b > 0xf4 { return Wrong; }
    var v: nat := LeadBits(b, k);
    for i := 1 to k
      invariant DecodeUtf8(s) == Tail(s, k, i, v)
    {
      if i >= |s| { return Short; }
      if !(0x80 <= s[i] < 0xc0) { return Wrong; }
      v := v * 64 + s[i] % 64;
    }
    if !Allowed(k, v) { return Wrong; }
    d := Reads(v, k);
  }

  /** A scan of a whole table: the last place that holds x, or its length. */
  method LastAt<T(==)>(t: seq<T>, x: T) returns (j: nat)
    ensures j == Find(t, x, |t|)
  {
    j := |t|;
    for i := 0 to |t|
      invariant Find(t, x, i) == if j < i then j else i
      invariant j < i || j == |t|
    {
      if t[i] == x { j := i; }
    }
  }

  method ReadNarrow(c: Charset, b: Byte) returns (d: Decoded)
    requires Narrow(c)
    ensures d == DecodeNarrow(c, b)
  {
    match c
    case ASCII => d := if b > 0x7f then Wrong else Reads(b, 1);
    case LATIN1 => d := Reads(b, 1);
    case CP1252 =>
      if 0x80 <= b < 0xa0 {
        if CP1252_HIGH[b - 0x80] == 0 { return Wrong; }
        d := Reads(CP1252_HIGH[b - 0x80], 1);
      } else {
        d := Reads(b, 1);
      }
    case LATIN9 =>
      var j := LastAt(LATIN9_AT, b);
      d := Reads(if j < 8 then LATIN9_IS[j] else b, 1);
  }

  /** The byte for a character of an 8-bit charset, or -1. */
  method ByteFor(c: Charset, u: int) returns (b: int)
    requires Narrow(c) && Scalar(u)
    ensures EncodeNarrow(c, u) == if 0 <= b < 256 then As([b]) else Unrepresentable
    ensures -1 <= b < 256
  {
    hide Find;
    match c
    case ASCII => b := if u < 0x80 then u else -1;
    case LATIN1 => b := if u < 0x100 then u else -1;
    case LATIN9 =>
      HighLatin9();
      b := ReplacedByte(LATIN9_AT, LATIN9_IS, u);
    case CP1252 =>
      b := Cp1252Byte(u);
  }

  method Cp1252Byte(u: int) returns (b: int)
    requires Scalar(u)
    ensures EncodeNarrow(CP1252, u) == if 0 <= b < 256 then As([b]) else Unrepresentable
    ensures -1 <= b < 256
  {
    hide Find;
    b := if u < 0x80 || 0xa0 <= u < 0x100 then u else -1;
    var j := LastAt(CP1252_HIGH, u);
    if u != 0 && j < 32 { b := 0x80 + j; }
  }

  lemma HighLatin9()
    ensures |LATIN9_AT| == |LATIN9_IS| == 8 && forall i | 0 <= i < 8 :: LATIN9_IS[i] > 0xff
  {
  }

  /** The bytes of ISO 8859-1 but for those at the places given, which hold what is given instead. */
  method ReplacedByte(at: seq<Byte>, holds: seq<int>, u: int) returns (b: int)
    requires |at| == |holds| && u >= 0 && forall i | 0 <= i < |at| :: holds[i] > 0xff
    ensures var j := Find(holds, u, |at|); b == if j < |at| then at[j] else if u < 0x100 && u !in at then u else -1
  {
    b := if u < 0x100 then u else -1;
    for i := 0 to |at|
      invariant var j := Find(holds, u, i); b == if j < i then at[j] else if u < 0x100 && u !in at[..i] then u else -1
    {
      if at[i] == u { b := -1; }
      if holds[i] == u { b := at[i]; }
      assert at[..i + 1] == at[..i] + [at[i]];
    }
    assert at[..|at|] == at;
  }

  /** u shifted right by n groups of six bits. */
  function Shifted(u: nat, n: nat): nat { if n == 0 then u else Shifted(u, n - 1) / 64 }

  method WriteUtf8(u: int) returns (s: seq<Byte>)
    requires Scalar(u)
    ensures s == Encode(u)
  {
    if u < 0x80 { return [u]; }
    var k := if u < 0x800 then 2 else if u < 0x10000 then 3 else 4;
    ghost var e := Encode(u);
    assert |e| == k;
    hide Encode, Shifted;
    Sixes(u);
    var v: nat := u;
    s := [];
    var i := k - 1;
    while i > 0
      invariant 0 <= i < k && v == Shifted(u, k - 1 - i) && s == e[i + 1..]
    {
      Group(u, k, i); NextShift(u, k - 1 - i);
      assert e[i..] == [e[i]] + e[i + 1..];
      s := [0x80 + v % 64] + s;
      v := v / 64;
      i := i - 1;
    }
    Leading(u, k);
    assert e == [e[0]] + e[1..];
    s := [(if k == 2 then 0xc0 else if k == 3 then 0xe0 else 0xf0) + v] + s;
  }

  lemma NextShift(u: nat, n: nat)
    ensures Shifted(u, n + 1) == Shifted(u, n) / 64
  {
  }

  lemma Group(u: int, k: nat, i: nat)
    requires Scalar(u) && u >= 0x80 && k == |Encode(u)| && 0 < i < k
    ensures Encode(u)[i] == 0x80 + Shifted(u, k - 1 - i) % 64
  {
    Sixes(u);
  }

  lemma Leading(u: int, k: nat)
    requires Scalar(u) && u >= 0x80 && k == |Encode(u)|
    ensures Encode(u)[0] == (if k == 2 then 0xc0 else if k == 3 then 0xe0 else 0xf0) + Shifted(u, k - 1)
  {
    Sixes(u);
  }

  lemma Sixes(u: nat)
    ensures Shifted(u, 0) == u && Shifted(u, 1) == u / 64 && Shifted(u, 2) == u / 4096 && Shifted(u, 3) == u / 262144
  {
    assert Shifted(u, 1) == Shifted(u, 0) / 64 && Shifted(u, 2) == Shifted(u, 1) / 64
        && Shifted(u, 3) == Shifted(u, 2) / 64;
    assert u / 64 / 64 == u / 4096 && u / 4096 / 64 == u / 262144;
  }

  class Converter {
    const cv: Conv
    var inBe: bool
    var inBomDone: bool
    var outBomDone: bool

    function St(): State
      reads this
    {
      State(inBe, inBomDone, outBomDone)
    }

    constructor (cv: Conv)
      ensures this.cv == cv && St() == FRESH
    {
      this.cv := cv;
      inBe, inBomDone, outBomDone := false, false, false;
    }

    /** A call without input: back to the initial state. */
    method Reset()
      modifies this
      ensures St() == FRESH
    {
      inBomDone, inBe := false, false;
      outBomDone := false;
    }

    method Decode(s: seq<Byte>) returns (d: Decoded)
      requires s != []
      modifies this
      ensures (d, St()) == DecodeOne(cv.from, old(St()), s)
    {
      hide DecodeUtf8, DecodeNarrow;
      if cv.from.UTF8? { d := ReadUtf8(s); return; }
      if Narrow(cv.from) { d := ReadNarrow(cv.from, s[0]); return; }
      if Wide16(cv.from) { d := Decode16Bits(s); } else { d := Decode32Bits(s); }
    }

    method Decode16Bits(s: seq<Byte>) returns (d: Decoded)
      requires s != [] && Wide16(cv.from)
      modifies this
      ensures (d, St()) == DecodeOne(cv.from, old(St()), s)
    {
      hide Get16;
      if |s| < 2 { return Short; }
      var le := cv.from.UTF16LE? || cv.from.UCS2LE? || cv.from.UCS2? || (cv.from.UTF16? && !inBe);
      var u := Get16(s, le);
      if cv.from.UTF16? && !inBomDone {
        inBomDone := true;
        if u == 0xfeff { return Bom(2); }
        if u == 0xfffe {
          inBe := true;
          return Bom(2);
        }
      }
      if IsUcs2(cv.from) {
        if 0xd800 <= u <= 0xdfff { return Wrong; }
        return Reads(u, 2);
      }
      if 0xdc00 <= u <= 0xdfff { return Wrong; }
      if 0xd800 <= u <= 0xdbff {
        if |s| < 4 { return Short; }
        var l := Get16(s[2..], le);
        if l < 0xdc00 || l > 0xdfff { return Wrong; }
        return Reads(0x10000 + (u - 0xd800) * 1024 + (l - 0xdc00), 4);
      }
      d := Reads(u, 2);
    }

    method Decode32Bits(s: seq<Byte>) returns (d: Decoded)
      requires s != [] && !cv.from.UTF8? && !Narrow(cv.from) && !Wide16(cv.from)
      modifies this
      ensures (d, St()) == DecodeOne(cv.from, old(St()), s)
    {
      hide Get32;
      if |s| < 4 { return Short; }
      var le := cv.from.UTF32LE? || cv.from.UCS4LE? || cv.from.WCHAR? || (cv.from.UTF32? && !inBe);
      var u := Get32(s, le);
      if cv.from.UTF32? && !inBomDone {
        inBomDone := true;
        if u == 0xfeff { return Bom(4); }
        if u == 0xfffe_0000 {
          inBe := true;
          return Bom(4);
        }
      }
      if u > 0x10ffff || 0xd800 <= u <= 0xdfff { return Wrong; }
      d := Reads(u, 4);
    }

    method Encode(u: int, room: nat) returns (o: Out)
      requires Scalar(u)
      modifies this
      ensures o == EncodeRoom(cv.to, old(St()), u, room) && St() == if o.Fits? then o.st else old(St())
    {
      hide EncodeNarrow, Put16, Put32;
      if cv.to.UTF8? {
        var s := WriteUtf8(u);
        return if |s| > room then NoRoom else Fits(s, St());
      }
      if Narrow(cv.to) {
        var b := ByteFor(cv.to, u);
        if b < 0 { return NoChar; }
        if room < 1 { return NoRoom; }
        return Fits([b], St());
      }
      if Wide16(cv.to) { o := Encode16Bits(u, room); } else { o := Encode32Bits(u, room); }
    }

    method Encode16Bits(u: int, room: nat) returns (o: Out)
      requires Scalar(u) && Wide16(cv.to)
      modifies this
      ensures o == EncodeRoom(cv.to, old(St()), u, room) && St() == if o.Fits? then o.st else old(St())
    {
      hide Put16;
      var le := !cv.to.UTF16BE? && !cv.to.UCS2BE?;
      var bom := if cv.to.UTF16? && !outBomDone then 2 else 0;
      if IsUcs2(cv.to) && u > 0xffff { return NoChar; }
      var k := if u > 0xffff then 4 else 2;
      if room < k + bom { return NoRoom; }
      var s: seq<Byte> := [];
      if bom > 0 {
        s := Put16(0xfeff, le);
        outBomDone := true;
      }
      if k == 2 {
        s := s + Put16(u, le);
      } else {
        var v := u - 0x10000;
        s := s + (Put16(0xd800 + v / 1024, le) + Put16(0xdc00 + v % 1024, le));
      }
      o := Fits(s, St());
    }

    method Encode32Bits(u: int, room: nat) returns (o: Out)
      requires Scalar(u) && !cv.to.UTF8? && !Narrow(cv.to) && !Wide16(cv.to)
      modifies this
      ensures o == EncodeRoom(cv.to, old(St()), u, room) && St() == if o.Fits? then o.st else old(St())
    {
      hide Put32;
      var le := !cv.to.UTF32BE? && !cv.to.UCS4?;
      var bom := if cv.to.UTF32? && !outBomDone then 4 else 0;
      if room < 4 + bom { return NoRoom; }
      var s: seq<Byte> := [];
      if bom > 0 {
        s := Put32(0xfeff, le);
        outBomDone := true;
      }
      s := s + Put32(u, le);
      o := Fits(s, St());
    }

    method Restore(st: State)
      modifies this
      ensures St() == st
    {
      inBe, inBomDone, outBomDone := st.inBe, st.inBomDone, st.outBomDone;
    }

    method Translit(u: int, room: nat) returns (o: Out)
      modifies this
      ensures o == Transliterated(cv.to, old(St()), u, room) && St() == if o.Fits? then o.st else old(St())
    {
      hide EncodeRoom;
      var rep := ReplacementOf(u);
      hide Replacement;
      var save := St();
      var s: seq<Byte> := [];
      assert rep[0..] == rep;
      SpelledFrom(cv.to, St(), rep, room);
      hide Spelled;
      for p := 0 to |rep|
        invariant |s| <= room && Spelled(cv.to, save, rep, room) == Onto(s, Spelled(cv.to, St(), rep[p..], room - |s|))
      {
        SpelledStep(cv.to, St(), rep, p, s, room);
        var w := Encode(rep[p] as int, room - |s|);
        if !w.Fits? {
          Restore(save);
          if w.NoRoom? { return NoRoom; }
          o := Encode('?' as int, room);
          return;
        }
        s := s + w.s;
      }
      SpelledDone(cv.to, St(), rep, s, room);
      o := Fits(s, St());
    }

    /** One turn of the loop. */
    method Turn(s: seq<Byte>, room: nat) returns (t: Turn)
      requires s != []
      modifies this
      ensures t == TurnOf(cv, old(St()), s, room) && St() == t.st
    {
      hide DecodeOne, EncodeOne, Transliterated;
      ReadsScalar(cv.from, St(), s);
      var d := Decode(s);
      if d.Short? { return Halt(St(), EINVAL); }
      if d.Wrong? { return if cv.ignore then Go(St(), 1, [], 0, true) else Halt(St(), EILSEQ); }
      if d.Bom? { return Go(St(), d.k, [], 0, false); }
      var irr := 0;
      var w := Encode(d.u, room);
      if w.NoChar? {
        if cv.translit {
          AlwaysSomething(cv.to, St(), d.u, room);
          w := Translit(d.u, room);
          irr := 1;
        } else {
          return if cv.ignore then Go(St(), d.k, [], 1, true) else Halt(St(), EILSEQ);
        }
      }
      if w.NoRoom? { return Halt(St(), E2BIG); }
      t := Go(St(), d.k, w.s, irr, false);
    }

    /** `iconv` with input and with room for so many bytes. It returns the number of irreversible
        conversions, or -1 when it stopped early or skipped something. */
    method Iconv(inp: seq<Byte>, room: nat) returns (r: Res, code: int)
      modifies this
      ensures r == Run(cv, old(St()), inp, room) && St() == r.st
      ensures code == if r.why == Done && !r.ignored then r.irreversible else -1
    {
      hide TurnOf, Run, After;
      var used: nat, out: seq<Byte>, irr: nat, ign := 0, [], 0, false;
      assert inp[0..] == inp;
      AfterNothing(Run(cv, St(), inp, room));
      while used < |inp|
        invariant used <= |inp| && |out| <= room
        invariant Run(cv, old(St()), inp, room) == After(used, out, irr, ign, Run(cv, St(), inp[used..], room - |out|))
        decreases |inp| - used
      {
        var s := inp[used..];
        ghost var st := St();
        ghost var rest := Run(cv, st, s, room - |out|);
        var t := Turn(s, room - |out|);
        if t.Halt? {
          TurnBounds(cv, st, s, room - |out|);
          RunHalt(cv, st, s, room - |out|);
          AfterParts(used, out, irr, ign, rest);
          assert out + [] == out;
          return Res(t.st, used, out, t.why, irr, ign), -1;
        }
        RunGo(cv, st, s, room - |out|, t);
        assert s[t.k..] == inp[used + t.k..];
        AfterTurn(used, out, irr, ign, t, Run(cv, t.st, s[t.k..], room - |out| - |t.b|));
        used, out, irr, ign := used + t.k, out + t.b, irr + t.irr, ign || t.ign;
      }
      assert inp[used..] == [];
      RunEmpty(cv, St(), room - |out|);
      AfterParts(used, out, irr, ign, Run(cv, St(), [], room - |out|));
      assert out + [] == out;
      r := Res(St(), used, out, Done, irr, ign);
      code := if ign then -1 else irr;
    }
  }

  lemma AfterTurn(k: nat, b: seq<Byte>, irr: nat, ign: bool, t: Turn, r: Res)
    requires t.Go?
    ensures After(k, b, irr, ign, After(t.k, t.b, t.irr, t.ign, r)) == After(k + t.k, b + t.b, irr + t.irr, ign
        || t.ign, r)
  {
    assert b + (t.b + r.out) == (b + t.b) + r.out;
  }

  method ReplacementOf(u: int) returns (rep: string)
    ensures rep == Replacement(u)
  {
    var j := LastAt(TRANSLIT_OF, u);
    rep := if j < TRANSLITS then TRANSLIT_AS[j] else "?";
  }

  lemma AlwaysSomething(c: Charset, st: State, u: int, room: nat)
    ensures !Transliterated(c, st, u, room).NoChar?
  {
    hide Spelled, Replacement, EncodeOne;
    AsciiEncodes(c, st, '?' as int);
  }

  /** a before what fits. */
  function Onto(a: seq<Byte>, o: Out): Out { if o.Fits? then Fits(a + o.s, o.st) else o }

  lemma SpelledFrom(c: Charset, st: State, t: string, room: nat)
    ensures Spelled(c, st, t, room) == Onto([], Spelled(c, st, t, room))
  {
    hide Spelled;
    var o := Spelled(c, st, t, room);
    if o.Fits? { assert [] + o.s == o.s; }
  }

  lemma SpelledStep(c: Charset, st: State, t: string, p: nat, s: seq<Byte>, room: nat)
    requires p < |t| && |s| <= room
    ensures var w := EncodeRoom(c, st, t[p] as int, room - |s|); var o := Onto(s, Spelled(c, st, t[p..], room - |s|));
            if w.Fits? then |s + w.s| <= room && o == Onto(s + w.s, Spelled(c, w.st, t[p + 1..], room - |s + w.s|))
                else o == w
  {
    hide EncodeOne;
    var w := EncodeRoom(c, st, t[p] as int, room - |s|);
    assert t[p..][0] == t[p] && t[p..][1..] == t[p + 1..];
    if w.Fits? {
      var rest := Spelled(c, w.st, t[p + 1..], room - |s| - |w.s|);
      if rest.Fits? { assert s + (w.s + rest.s) == (s + w.s) + rest.s; }
    }
  }

  lemma SpelledDone(c: Charset, st: State, t: string, s: seq<Byte>, room: nat)
    requires |s| <= room
    ensures Onto(s, Spelled(c, st, t[|t|..], room - |s|)) == Fits(s, st)
  {
    assert t[|t|..] == [] && s + [] == s;
  }
}
