/** UTF-8 as src/multibyte.c decodes and encodes it: a restartable decoder that accepts exactly the
    forms of section 4 of RFC 3629. */
module Utf8 {
  type Byte = x: int | 0 <= x < 256

  /** A Unicode scalar value. */
  predicate Scalar(c: int) { 0 <= c < 0x110000 && !(0xd800 <= c < 0xe000) }

  /** The length that the first byte of a character announces, 0 for a byte that begins none. */
  function Announced(b: Byte): nat {
    if b < 0xc2 || b > 0xf4 then 0 else if b >= 0xf0 then 4 else if b >= 0xe0 then 3 else 2
  }

  /** The payload of a first byte that announces k bytes. */
  function LeadBits(b: Byte, k: nat): nat { if k == 2 then b % 32 else if k == 3 then b % 16 else b % 8 }

  // ---- encoding ----

  /** The UTF-8 form of a scalar value. */
  function Encode(c: int): (s: seq<Byte>)
    requires Scalar(c)
    ensures 1 <= |s| <= 4
  {
    if c < 0x80 then [c]
    else if c < 0x800 then [0xc0 + c / 64, 0x80 + c % 64]
    else if c < 0x10000 then [0xe0 + c / 4096, 0x80 + c / 64 % 64, 0x80 + c % 64]
    else [0xf0 + c / 262144, 0x80 + c / 4096 % 64, 0x80 + c / 64 % 64, 0x80 + c % 64]
  }

  function Power64(k: nat): (p: nat)
    ensures p > 0
  {
    if k == 0 then 1 else 64 * Power64(k - 1)
  }

  /** The form of a character of n bytes, in terms of bits (section 3 of RFC 3629): n ones and a zero before the first
      bits, a one and a zero before every six bits more, and as few bytes as can be. */
  lemma EncodeForm(c: int, i: nat)
    requires Scalar(c) && i < |Encode(c)|
    ensures var n := |Encode(c)|;
            && n == (if c < 0x80 then 1 else if c < 0x800 then 2 else if c < 0x10000 then 3 else 4)
            && (n == 1 ==> Encode(c)[0] == c)
            && (n > 1 && i == 0 ==> Encode(c)[0] == [0xc0, 0xe0, 0xf0][n - 2] + c / Power64(n - 1))
            && (n > 1 && i > 0 ==> Encode(c)[i] == 0x80 + c / Power64(n - 1 - i) % 64)
  {
    assert Power64(0) == 1 && Power64(1) == 64 && Power64(2) == 4096 && Power64(3) == 262144;
  }

  datatype Encoded = Bytes(s: seq<Byte>) | NotScalar

  /** `wcrtomb`: EILSEQ for surrogates and for what lies beyond U+10FFFF. The argument is taken as an
      unsigned 32-bit number. */
  method Wcrtomb(wc: int) returns (r: Encoded)
    requires -0x8000_0000 <= wc < 0x8000_0000
    ensures r == if Scalar(wc) then Bytes(Encode(wc)) else NotScalar
  {
    var c := if wc < 0 then wc + 0x1_0000_0000 else wc;
    if c < 0x80 { return Bytes([c]); }
    if c < 0x800 { return Bytes([0xc0 + c / 64, 0x80 + c % 64]); }
    if c < 0x10000 {
      if 0xd800 <= c < 0xe000 { return NotScalar; }
      return Bytes([0xe0 + c / 4096, 0x80 + c / 64 % 64, 0x80 + c % 64]);
    }
    if c < 0x110000 { return Bytes([0xf0 + c / 262144, 0x80 + c / 4096 % 64, 0x80 + c / 64 % 64, 0x80 + c % 64]); }
    r := NotScalar;
  }

  // ---- decoding ----

  /** `second_ok`: the second byte after a given first one. */
  predicate SecondOk(lead: int, b: int) {
    if lead == 0xe0 then 0xa0 <= b <= 0xbf
    else if lead == 0xed then 0x80 <= b <= 0x9f
    else if lead == 0xf0 then 0x90 <= b <= 0xbf
    else if lead == 0xf4 then 0x80 <= b <= 0x8f
    else 0x80 <= b <= 0xbf
  }

  /** A partly decoded character: the bits so far, the number of bytes still needed, and the first
      byte while the second is pending. */
  datatype MbState = Mb(c: nat, need: nat, lead: nat)

  const INITIAL := Mb(0, 0, 0)

  datatype Outcome = Got(c: int, used: nat) | Illegal | Incomplete(st: MbState)

  /** What one more byte makes of a state. */
  datatype Fed = More(st: MbState) | Char(c: int) | Bad

  function Begin(b: Byte): Fed {
    if b < 0x80 then Char(b)
    else if 0xc2 <= b <= 0xdf then More(Mb(b % 32, 1, b))
    else if 0xe0 <= b <= 0xef then More(Mb(b % 16, 2, b))
    else if 0xf0 <= b <= 0xf4 then More(Mb(b % 8, 3, b))
    else Bad
  }

  function Continue(st: MbState, b: Byte): Fed
    requires st.need > 0
  {
    if !(if st.lead != 0 then SecondOk(st.lead, b) else 0x80 <= b <= 0xbf) then Bad
    else if st.need == 1 then Char(st.c * 64 + b % 64)
    else More(Mb(st.c * 64 + b % 64, st.need - 1, 0))
  }

  function Feed(st: MbState, b: Byte): Fed { if st.need == 0 then Begin(b) else Continue(st, b) }

  /** Feeding bytes until a character is complete, something is wrong, or the bytes run out. */
  function Decode(st: MbState, s: seq<Byte>): Outcome
    decreases |s|
  {
    if s == [] then Incomplete(st)
    else
      var fed := Feed(st, s[0]);
      if fed.Char? then Got(fed.c, 1) else if fed.Bad? then Illegal else Later(Decode(fed.st, s[1..]), 1)
  }

  function Later(o: Outcome, k: nat): Outcome { if o.Got? then Got(o.c, o.used + k) else o }

  /** What `mbrtowc` returns: the bytes used (none reported for the null character), or an error. */
  datatype Code = Used(k: nat) | ILSEQ | INCOMPLETE

  /** What it returns and leaves, for what decoding from st gives. */
  predicate Reports(st: MbState, o: Outcome, r: Code, wc: int, st': MbState) {
    match o
    case Got(c, k) => wc == c && r == Used(if c == 0 then 0 else k) && (st' == INITIAL || (st' == st && st.need == 0))
    case Illegal => r == ILSEQ && st' == INITIAL
    case Incomplete(t) => r == INCOMPLETE && st' == t
  }

  /** `mbrtowc` with a source. A state holds at most three missing bytes, and no bits of its own when
      none is missing. */
  method Mbrtowc(s: seq<Byte>, st: MbState) returns (r: Code, wc: int, st': MbState)
    requires Proper(st)
    ensures Reports(st, Decode(st, s), r, wc, st')
  {
    hide SecondOk;
    wc, st' := 0, st;
    if s == [] { return INCOMPLETE, wc, st; }
    var c: nat, need: nat, lead: nat, i: nat := st.c, st.need, st.lead, 0;
    ghost var whole := Decode(st, s);
    if need == 0 {
      var b := s[0];
      i := 1;
      if b < 0x80 { return Used(if b != 0 then 1 else 0), b, st; }
      if 0xc2 <= b <= 0xdf { c, need := b % 32, 1; }
      else if 0xe0 <= b <= 0xef { c, need := b % 16, 2; }
      else if 0xf0 <= b <= 0xf4 { c, need := b % 8, 3; }
      else { return ILSEQ, wc, INITIAL; }
      lead := b;
    } else {
      assert s[0..] == s;
      LaterZero(whole);
    }
    hide Decode;
    while need > 0
      invariant i <= |s| && Decoding(whole, c, need, lead, s, i)
      invariant if need > 0 then Proper(Mb(c, need, lead)) else c > 0
      decreases need
    {
      FeedNext(whole, c, need, lead, s, i);
      if i == |s| { return INCOMPLETE, wc, Mb(c, need, lead); }
      var b := s[i];
      if !(if lead != 0 then SecondOk(lead, b) else 0x80 <= b <= 0xbf) { return ILSEQ, wc, INITIAL; }
      NotNull(c, need, lead, b);
      lead := 0;
      c := c * 64 + b % 64;
      need := need - 1;
      i := i + 1;
    }
    r, wc, st' := Used(i), c, INITIAL;
  }

  /** What is to come of a state after i bytes. */
  predicate Decoding(whole: Outcome, c: nat, need: nat, lead: nat, s: seq<Byte>, i: nat)
    requires i <= |s|
  {
    whole == if need == 0 then Got(c, i) else Later(Decode(Mb(c, need, lead), s[i..]), i)
  }

  lemma FeedNext(whole: Outcome, c: nat, need: nat, lead: nat, s: seq<Byte>, i: nat)
    requires need > 0 && i <= |s| && Decoding(whole, c, need, lead, s, i)
    ensures i == |s| ==> whole == Incomplete(Mb(c, need, lead))
    ensures i < |s| && !(if lead != 0 then SecondOk(lead, s[i]) else 0x80 <= s[i] <= 0xbf) ==> whole == Illegal
    ensures i < |s| && (if lead != 0 then SecondOk(lead, s[i]) else 0x80 <= s[i] <= 0xbf) ==>
        Decoding(whole, c * 64 + s[i] % 64, need - 1, 0, s, i + 1)
  {
    hide SecondOk;
    if i < |s| { assert s[i..][0] == s[i] && s[i..][1..] == s[i + 1..]; }
  }

  /** The states decoding can be in: after a first byte the bits it gave, later at least some bit. */
  predicate Proper(st: MbState) {
    || st == INITIAL
    || (0 < st.need <= 3 && (if st.lead == 0 then st.c > 0 && st.need <= 2 else Begin3(st)))
  }

  /** The state right after a first byte. */
  predicate Begin3(st: MbState) { 0xc2 <= st.lead <= 0xf4 && Begin(st.lead) == More(st) }

  lemma NotNull(c: nat, need: nat, lead: nat, b: Byte)
    requires Proper(Mb(c, need, lead)) && need > 0 && (if lead != 0 then SecondOk(lead, b) else 0x80 <= b <= 0xbf)
    ensures c * 64 + b % 64 > 0 && (need > 1 ==> Proper(Mb(c * 64 + b % 64, need - 1, 0)))
  {
  }

  lemma LaterZero(o: Outcome)
    ensures Later(o, 0) == o
  {
  }

  // ---- decoding inverts encoding ----

  /** Bytes that do not complete a character can be fed by themselves first. */
  lemma {:induction false} Chunks(st: MbState, a: seq<Byte>, b: seq<Byte>)
    requires Decode(st, a).Incomplete?
    ensures Decode(st, a + b) == Later(Decode(Decode(st, a).st, b), |a|)
    decreases |a|
  {
    if a == [] {
      assert a + b == b;
      LaterZero(Decode(st, b));
    } else {
      assert (a + b)[0] == a[0] && (a + b)[1..] == a[1..] + b;
      var t := Feed(st, a[0]).st;
      Chunks(t, a[1..], b);
    }
  }

  /** A decided outcome does not depend on what follows. */
  lemma {:induction false} Decided(st: MbState, a: seq<Byte>, b: seq<Byte>)
    requires !Decode(st, a).Incomplete?
    ensures Decode(st, a + b) == Decode(st, a) && (Decode(st, a).Got? ==> 1 <= Decode(st, a).used <= |a|)
    decreases |a|
  {
    assert (a + b)[0] == a[0] && (a + b)[1..] == a[1..] + b;
    var fed := Feed(st, a[0]);
    if fed.More? { Decided(fed.st, a[1..], b); }
  }

  /** A character is decided by its own bytes. */
  lemma {:induction false} OwnBytes(st: MbState, s: seq<Byte>)
    requires Decode(st, s).Got?
    ensures var k := Decode(st, s).used; 1 <= k <= |s| && Decode(st, s[..k]) == Decode(st, s)
    decreases |s|
  {
    var fed := Feed(st, s[0]);
    if fed.More? {
      OwnBytes(fed.st, s[1..]);
      var k := Decode(st, s).used;
      assert s[..k][0] == s[0] && s[..k][1..] == s[1..][..k - 1];
    } else {
      assert s[..1][0] == s[0];
    }
  }

  lemma DecodeEncoded(c: int)
    requires Scalar(c)
    ensures Decode(INITIAL, Encode(c)) == Got(c, |Encode(c)|)
  {
    hide Decode, SecondOk;
    var s := Encode(c);
    if |s| == 1 {
      DecodeAscii(c);
    } else if |s| == 2 {
      TwoBytes(c);
      DecodeTwo(c / 64, s[0], s[1]);
    } else if |s| == 3 {
      ThreeBytes(c);
      DecodeThree(c / 4096, s[0], s[1], s[2]);
    } else {
      FourBytes(c);
      DecodeFour(c / 262144, s[0], s[1], s[2], s[3]);
    }
  }

  lemma DecodeAscii(b: Byte)
    requires b < 0x80
    ensures Decode(INITIAL, [b]) == Got(b, 1)
  {
  }

  lemma DecodeTwo(w: nat, b0: Byte, b1: Byte)
    requires 0xc2 <= b0 <= 0xdf && b0 % 32 == w && 0x80 <= b1 <= 0xbf
    ensures Decode(INITIAL, [b0, b1]) == Got(w * 64 + b1 % 64, 2)
  {
    assert [b0, b1][1..] == [b1];
  }

  lemma DecodeThree(w: nat, b0: Byte, b1: Byte, b2: Byte)
    requires 0xe0 <= b0 <= 0xef && b0 % 16 == w && SecondOk(b0, b1) && 0x80 <= b2 <= 0xbf
    ensures Decode(INITIAL, [b0, b1, b2]) == Got((w * 64 + b1 % 64) * 64 + b2 % 64, 3)
  {
    hide Decode, SecondOk;
    DecodeMore(INITIAL, b0, [b1, b2], Mb(w, 2, b0));
    DecodeMore(Mb(w, 2, b0), b1, [b2], Mb(w * 64 + b1 % 64, 1, 0));
    DecodeLast(w * 64 + b1 % 64, b2);
    assert [b1, b2] == [b1] + [b2] && [b0, b1, b2] == [b0] + [b1, b2];
  }

  lemma DecodeFour(w: nat, b0: Byte, b1: Byte, b2: Byte, b3: Byte)
    requires 0xf0 <= b0 <= 0xf4 && b0 % 8 == w && SecondOk(b0, b1) && 0x80 <= b2 <= 0xbf && 0x80 <= b3 <= 0xbf
    ensures Decode(INITIAL, [b0, b1, b2, b3]) == Got(((w * 64 + b1 % 64) * 64 + b2 % 64) * 64 + b3 % 64, 4)
  {
    hide Decode, SecondOk;
    var hi: nat := w * 64 + b1 % 64;
    DecodeMore(INITIAL, b0, [b1, b2, b3], Mb(w, 3, b0));
    DecodeMore(Mb(w, 3, b0), b1, [b2, b3], Mb(hi, 2, 0));
    DecodeMore(Mb(hi, 2, 0), b2, [b3], Mb(hi * 64 + b2 % 64, 1, 0));
    DecodeLast(hi * 64 + b2 % 64, b3);
    assert [b2, b3] == [b2] + [b3] && [b1, b2, b3] == [b1] + [b2, b3] && [b0, b1, b2, b3] == [b0] + [b1, b2, b3];
  }

  lemma DecodeMore(st: MbState, b: Byte, t: seq<Byte>, next: MbState)
    requires Feed(st, b) == More(next)
    ensures Decode(st, [b] + t) == Later(Decode(next, t), 1)
  {
    assert ([b] + t)[1..] == t;
  }

  lemma DecodeLast(c: nat, b: Byte)
    requires 0x80 <= b <= 0xbf
    ensures Decode(Mb(c, 1, 0), [b]) == Got(c * 64 + b % 64, 1)
  {
  }

  lemma TwoBytes(c: int)
    requires 0x80 <= c < 0x800
    ensures 0xc2 <= 0xc0 + c / 64 <= 0xdf && (0xc0 + c / 64) % 32 == c / 64 && (0x80 + c % 64) % 64 == c % 64
        && c == c / 64 * 64 + c % 64
  {
  }

  lemma ThreeBytes(c: int)
    requires 0x800 <= c < 0x10000 && !(0xd800 <= c < 0xe000)
    ensures var b := 0xe0 + c / 4096; 0xe0 <= b <= 0xef && b % 16 == c / 4096 && SecondOk(b, 0x80 + c / 64 % 64)
    ensures (0x80 + c / 64 % 64) % 64 == c / 64 % 64 && (0x80 + c % 64) % 64 == c % 64
    ensures c == (c / 4096 * 64 + c / 64 % 64) * 64 + c % 64
  {
    assert c / 4096 == c / 64 / 64;
  }

  lemma FourBytes(c: int)
    requires 0x10000 <= c < 0x110000
    ensures var b := 0xf0 + c / 262144; 0xf0 <= b <= 0xf4 && b % 8 == c / 262144 && SecondOk(b, 0x80 + c / 4096 % 64)
    ensures (0x80 + c / 4096 % 64) % 64 == c / 4096 % 64 && (0x80 + c / 64 % 64) % 64 == c / 64 % 64
        && (0x80 + c % 64) % 64 == c % 64
    ensures c == ((c / 262144 * 64 + c / 4096 % 64) * 64 + c / 64 % 64) * 64 + c % 64
  {
    assert c / 4096 == c / 64 / 64 && c / 262144 == c / 4096 / 64;
  }

  lemma OneMore(c: nat, s: seq<Byte>)
    requires Decode(Mb(c, 1, 0), s).Got?
    ensures |s| >= 1 && 0x80 <= s[0] <= 0xbf && Decode(Mb(c, 1, 0), s) == Got(c * 64 + s[0] % 64, 1)
  {
  }

  lemma TwoMore(c: nat, s: seq<Byte>)
    requires Decode(Mb(c, 2, 0), s).Got?
    ensures |s| >= 2 && 0x80 <= s[0] <= 0xbf && 0x80 <= s[1] <= 0xbf
    ensures Decode(Mb(c, 2, 0), s) == Got((c * 64 + s[0] % 64) * 64 + s[1] % 64, 2)
  {
    OneMore(c * 64 + s[0] % 64, s[1..]);
  }

  lemma AfterLead(st: MbState, s: seq<Byte>)
    requires st.need > 1 && st.lead != 0 && Decode(st, s).Got?
    ensures |s| >= 1 && SecondOk(st.lead, s[0])
    ensures var rest := Decode(Mb(st.c * 64 + s[0] % 64, st.need - 1, 0), s[1..]);
            rest.Got? && Decode(st, s) == Later(rest, 1)
  {
  }

  /** What decoding accepts is the one form of a scalar value. */
  lemma DecodeSound(s: seq<Byte>)
    requires Decode(INITIAL, s).Got?
    ensures var o := Decode(INITIAL, s); Scalar(o.c) && o.used <= |s| && s[..o.used] == Encode(o.c)
  {
    var fed := Feed(INITIAL, s[0]);
    if fed.More? {
      var st, t := fed.st, s[1..];
      assert Decode(INITIAL, s) == Later(Decode(st, t), 1);
      hide Decode, Scalar, Encode;
      if st.need == 1 {
        TwoSound(s[0], t, st);
      } else if st.need == 2 {
        ThreeSound(s[0], t, st);
      } else {
        FourSound(s[0], t, st);
      }
      Prepended(s, t, Decode(INITIAL, s).used);
    } else {
      assert s[..1] == [s[0]];
    }
  }

  lemma TwoSound(b: Byte, t: seq<Byte>, st: MbState)
    requires Begin(b) == More(st) && st.need == 1 && Decode(st, t).Got?
    ensures var o := Decode(st, t); Scalar(o.c) && o.used <= |t| && [b] + t[..o.used] == Encode(o.c)
  {
    hide Scalar, Encode;
    SoundTwo(b, t[0]);
    assert t[..1] == [t[0]];
  }

  lemma Prepended(s: seq<Byte>, t: seq<Byte>, k: nat)
    requires s != [] && t == s[1..] && 0 < k <= |s|
    ensures s[..k] == [s[0]] + t[..k - 1]
  {
  }

  lemma ThreeSound(b: Byte, t: seq<Byte>, st: MbState)
    requires Begin(b) == More(st) && st.need == 2 && Decode(st, t).Got?
    ensures var o := Decode(st, t); Scalar(o.c) && o.used <= |t| && [b] + t[..o.used] == Encode(o.c)
  {
    hide Decode, Scalar, Encode, SecondOk;
    AfterLead(st, t);
    OneMore(st.c * 64 + t[0] % 64, t[1..]);
    SoundThree(b, t[0], t[1]);
    assert t[..2] == [t[0], t[1]];
  }

  lemma FourSound(b: Byte, t: seq<Byte>, st: MbState)
    requires Begin(b) == More(st) && st.need == 3 && Decode(st, t).Got?
    ensures var o := Decode(st, t); Scalar(o.c) && o.used <= |t| && [b] + t[..o.used] == Encode(o.c)
  {
    hide Decode, Scalar, Encode, SecondOk;
    AfterLead(st, t);
    TwoMore(st.c * 64 + t[0] % 64, t[1..]);
    SoundFour(b, t[0], t[1], t[2]);
    assert t[..3] == [t[0], t[1], t[2]];
  }

  lemma SoundTwo(b0: Byte, b1: Byte)
    requires 0xc2 <= b0 <= 0xdf && 0x80 <= b1 <= 0xbf
    ensures var c := b0 % 32 * 64 + b1 % 64; Scalar(c) && Encode(c) == [b0, b1]
  {
  }

  lemma SoundThree(b0: Byte, b1: Byte, b2: Byte)
    requires 0xe0 <= b0 <= 0xef && SecondOk(b0, b1) && 0x80 <= b2 <= 0xbf
    ensures var c := (b0 % 16 * 64 + b1 % 64) * 64 + b2 % 64; Scalar(c) && Encode(c) == [b0, b1, b2]
  {
    var x, y, z := b0 % 16, b1 % 64, b2 % 64;
    var c := (x * 64 + y) * 64 + z;
    assert c / 64 == x * 64 + y && c % 64 == z && c / 4096 == x;
  }

  lemma SoundFour(b0: Byte, b1: Byte, b2: Byte, b3: Byte)
    requires 0xf0 <= b0 <= 0xf4 && SecondOk(b0, b1) && 0x80 <= b2 <= 0xbf && 0x80 <= b3 <= 0xbf
    ensures var c := ((b0 % 8 * 64 + b1 % 64) * 64 + b2 % 64) * 64 + b3 % 64; Scalar(c) && Encode(c) == [b0, b1, b2, b3]
  {
    var w, x, y, z := b0 - 0xf0, b1 - 0x80, b2 - 0x80, b3 - 0x80;
    assert b0 % 8 == w && b1 % 64 == x && b2 % 64 == y && b3 % 64 == z;
    FourDigits(w, x, y, z);
    FourForm(((w * 64 + x) * 64 + y) * 64 + z, w, x, y, z);
  }

  lemma FourForm(c: int, w: int, x: int, y: int, z: int)
    requires 0 <= w < 5 && 0 <= x < 64 && 0 <= y < 64 && 0 <= z < 64 && 0x10000 <= c < 0x110000
    requires c / 262144 == w && c / 4096 % 64 == x && c / 64 % 64 == y && c % 64 == z
    ensures Scalar(c) && Encode(c) == [0xf0 + w, 0x80 + x, 0x80 + y, 0x80 + z]
  {
  }

  lemma FourDigits(w: int, x: int, y: int, z: int)
    requires 0 <= w < 5 && 0 <= x < 64 && 0 <= y < 64 && 0 <= z < 64
    ensures var c := ((w * 64 + x) * 64 + y) * 64 + z;
            c / 262144 == w && c / 4096 % 64 == x && c / 64 % 64 == y && c % 64 == z
  {
    var c := ((w * 64 + x) * 64 + y) * 64 + z;
    assert c / 64 == (w * 64 + x) * 64 + y;
    assert c / 4096 == w * 64 + x;
  }

  /** A proper prefix of some form. */
  ghost predicate Unfinished(s: seq<Byte>) { exists c: int :: Scalar(c) && s < Encode(c) }

  /** Bytes that finish a character. */
  function Finish(st: MbState): seq<Byte>
    requires 0 < st.need <= 3
  {
    [if st.lead == 0xe0 then 0xa0 else if st.lead == 0xf0 then 0x90 else 0x80] + seq(st.need - 1, _ => 0x80)
  }

  lemma {:induction false} Finishes(st: MbState)
    requires 0 < st.need <= 3
    ensures Decode(st, Finish(st)).Got?
    decreases st.need
  {
    var f := Finish(st);
    if st.need > 1 {
      var t := Feed(st, f[0]).st;
      Finishes(t);
      assert f[1..] == Finish(t);
    }
  }

  lemma {:induction false} MissingBytes(st: MbState, s: seq<Byte>)
    requires Decode(st, s).Incomplete? && st.need <= 3 && (s != [] || st.need > 0)
    ensures 0 < Decode(st, s).st.need <= 3
    decreases |s|
  {
    if s != [] { MissingBytes(Feed(st, s[0]).st, s[1..]); }
  }

  /** INCOMPLETE is reported for exactly the beginnings of well-formed characters. */
  lemma IncompleteIff(s: seq<Byte>)
    ensures Decode(INITIAL, s).Incomplete? <==> Unfinished(s)
  {
    if s == [] {
      assert Scalar(0) && s < Encode(0);
    } else if Decode(INITIAL, s).Incomplete? {
      MissingBytes(INITIAL, s);
      var t := Decode(INITIAL, s).st;
      Finishes(t);
      Chunks(INITIAL, s, Finish(t));
      DecodeSound(s + Finish(t));
      FinishUsed(t, s);
      var c := Decode(INITIAL, s + Finish(t)).c;
      assert s < Encode(c);
    } else if Unfinished(s) {
      var c :| Scalar(c) && s < Encode(c);
      var rest := Encode(c)[|s|..];
      assert s + rest == Encode(c);
      Decided(INITIAL, s, rest);
      DecodeEncoded(c);
    }
  }

  lemma FinishUsed(st: MbState, s: seq<Byte>)
    requires 0 < st.need <= 3 && Decode(st, Finish(st)).Got?
    ensures Decode(st, Finish(st)).used >= 1
  {
    Decided(st, Finish(st), []);
  }

  /** ILSEQ is reported for exactly what neither begins with a well-formed character nor begins one. */
  lemma IllegalIff(s: seq<Byte>)
    ensures Decode(INITIAL, s).Illegal? <==> !Unfinished(s) && !(exists c: int :: Scalar(c) && Encode(c) <= s)
  {
    IncompleteIff(s);
    if Decode(INITIAL, s).Got? {
      DecodeSound(s);
      assert Encode(Decode(INITIAL, s).c) <= s;
    }
    if c: int :| Scalar(c) && Encode(c) <= s {
      DecodeEncoded(c);
      Decided(INITIAL, Encode(c), s[|Encode(c)|..]);
      assert Encode(c) + s[|Encode(c)|..] == s;
    }
  }

  // ---- whole texts ----

  /** The characters of a text, and the state at its end. */
  datatype Text = Text(chars: seq<int>, st: MbState, ok: bool)

  /** One `mbrtowc` call after the other. */
  function Stream(st: MbState, s: seq<Byte>): Text
    decreases |s|
  {
    match Decode(st, s)
    case Incomplete(t) => Text([], t, true)
    case Illegal => Text([], INITIAL, false)
    case Got(c, k) =>
      Decided(st, s, []);
      Prefixed(c, Stream(INITIAL, s[k..]))
  }

  lemma StreamGot(st: MbState, s: seq<Byte>, c: int, k: nat)
    requires Decode(st, s) == Got(c, k)
    ensures 1 <= k <= |s| && Stream(st, s) == Prefixed(c, Stream(INITIAL, s[k..]))
  {
    Decided(st, s, []);
  }

  function Prefixed(c: int, t: Text): Text { Text([c] + t.chars, t.st, t.ok) }

  function Joined(a: Text, b: Text): Text { if a.ok then Text(a.chars + b.chars, b.st, b.ok) else a }

  /** However a text is cut into pieces, the same characters come out. */
  lemma {:induction false} AnyChunking(st: MbState, a: seq<Byte>, b: seq<Byte>)
    ensures Stream(st, a + b) == Joined(Stream(st, a), Stream(Stream(st, a).st, b))
    decreases |a|
  {
    if Decode(st, a).Incomplete? {
      Chunks(st, a, b);
      StreamLater(st, a, b);
    } else {
      Decided(st, a, b);
      if Decode(st, a).Got? {
        var k := Decode(st, a).used;
        assert (a + b)[k..] == a[k..] + b;
        AnyChunking(INITIAL, a[k..], b);
        var x, y := Stream(INITIAL, a[k..]), Stream(Stream(INITIAL, a[k..]).st, b);
        assert [Decode(st, a).c] + (x.chars + y.chars) == [Decode(st, a).c] + x.chars + y.chars;
      }
    }
  }

  lemma StreamLater(st: MbState, a: seq<Byte>, b: seq<Byte>)
    requires Decode(st, a).Incomplete? && Decode(st, a + b) == Later(Decode(Decode(st, a).st, b), |a|)
    ensures Stream(st, a + b) == Joined(Stream(st, a), Stream(Decode(st, a).st, b))
  {
    hide Decode;
    var t := Decode(st, a).st;
    if Decode(t, b).Got? {
      var c, k := Decode(t, b).c, Decode(t, b).used;
      StreamGot(t, b, c, k);
      StreamGot(st, a + b, c, k + |a|);
      assert (a + b)[k + |a|..] == b[k..];
    }
    hide Stream;
    assert [] + Stream(t, b).chars == Stream(t, b).chars;
  }

  predicate Scalars(cs: seq<int>) { forall i | 0 <= i < |cs| :: Scalar(cs[i]) }

  function EncodeAll(cs: seq<int>): seq<Byte>
    requires Scalars(cs)
  {
    if cs == [] then [] else Encode(cs[0]) + EncodeAll(cs[1..])
  }

  /** Decoding an encoded text gives the text. */
  lemma {:induction false} RoundTrip(cs: seq<int>)
    requires Scalars(cs)
    ensures Stream(INITIAL, EncodeAll(cs)) == Text(cs, INITIAL, true)
    decreases |cs|
  {
    if cs != [] {
      var s, rest := Encode(cs[0]), EncodeAll(cs[1..]);
      RoundTrip(cs[1..]);
      DecodeEncoded(cs[0]);
      assert EncodeAll(cs) == s + rest;
      hide Decode, Encode, Stream, EncodeAll;
      Decided(INITIAL, s, rest);
      StreamGot(INITIAL, s + rest, cs[0], |s|);
      assert (s + rest)[|s|..] == rest;
      assert [cs[0]] + cs[1..] == cs;
    }
  }

  lemma NothingLeft(s: seq<Byte>)
    requires !Decode(INITIAL, s).Got? && Stream(INITIAL, s).ok && Stream(INITIAL, s).st == INITIAL
    ensures s == [] && Stream(INITIAL, s).chars == []
  {
    if s != [] { MissingBytes(INITIAL, s); }
  }

  /** Encoding a decoded text gives the text: nothing but well-formed UTF-8 decodes to the end. */
  lemma {:induction false} RoundTripBack(s: seq<Byte>)
    requires Stream(INITIAL, s).ok && Stream(INITIAL, s).st == INITIAL
    ensures Scalars(Stream(INITIAL, s).chars) && EncodeAll(Stream(INITIAL, s).chars) == s
    decreases |s|
  {
    hide Decode, Encode, Stream;
    if Decode(INITIAL, s).Got? {
      DecodeSound(s);
      var c, k := Decode(INITIAL, s).c, Decode(INITIAL, s).used;
      StreamGot(INITIAL, s, c, k);
      RoundTripBack(s[k..]);
      var cs := Stream(INITIAL, s[k..]).chars;
      assert ([c] + cs)[1..] == cs;
      assert s == s[..k] + s[k..];
    } else {
      NothingLeft(s);
    }
  }
}
