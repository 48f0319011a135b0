/** UTF-16 to and from UTF-8 one unit at a time, as src/uchar.c does it: a surrogate pair takes two calls,
    and what is owed or awaited in between is kept in the conversion state. */
module Utf16 {
  import opened Utf8

  type Unit = x: int | 0 <= x < 0x10000

  /** The UTF-16 form of a scalar value. */
  function Units(c: int): seq<Unit>
    requires Scalar(c)
  {
    if c < 0x10000 then [c] else [0xd800 + (c - 0x10000) / 1024, 0xdc00 + (c - 0x10000) % 1024]
  }

  function UnitsAll(cs: seq<int>): seq<Unit>
    requires Scalars(cs)
  {
    if cs == [] then [] else Units(cs[0]) + UnitsAll(cs[1..])
  }

  /** Below U+10000 a character is one unit, itself. From there on pairs of surrogates follow each other in order,
      as digits of base 1024 do, beginning with D800 DC00. */
  lemma UnitsInOrder(c: int)
    requires Scalar(c)
    ensures c < 0x10000 ==> Units(c) == [c]
    ensures c == 0x10000 ==> Units(c) == [0xd800, 0xdc00]
    ensures 0x10000 <= c < 0x10ffff ==>
        Units(c + 1) == if Units(c)[1] == 0xdfff then [Units(c)[0] + 1, 0xdc00] else [Units(c)[0], Units(c)[1] + 1]
    ensures c == 0x10ffff ==> Units(c) == [0xdbff, 0xdfff]
  {
    if c >= 0x10000 { NextPair(c - 0x10000); }
  }

  lemma NextPair(n: nat)
    ensures if n % 1024 == 1023 then (n + 1) / 1024 == n / 1024 + 1 && (n + 1) % 1024 == 0
        else (n + 1) / 1024 == n / 1024 && (n + 1) % 1024 == n % 1024 + 1
  {
  }

  // ---- mbrtoc16 ----

  /** A state of `mbrtoc16`: in the middle of a character, or owing the second half of a pair. */
  datatype State16 = In(mb: MbState) | Owes(low: Unit)

  /** `Used` counts bytes as `mbrtowc` does, `Again` is the unit that was owed. */
  datatype Code16 = Used16(k: nat) | Again | ILSEQ16 | INCOMPLETE16

  /** What a call gives for what decoding from mb gives. */
  ghost predicate Reports16(mb: MbState, o: Outcome, r: Code16, u: Unit, st': State16) {
    match o
    case Illegal => r == ILSEQ16 && st' == In(INITIAL)
    case Incomplete(t) => r == INCOMPLETE16 && st' == In(t)
    case Got(c, k) =>
      && Scalar(c) && r == Used16(if c == 0 then 0 else k) && u == Units(c)[0]
      && if c < 0x10000 then st'.In? && (st'.mb == INITIAL || (st'.mb == mb && mb.need == 0))
          else st' == Owes(Units(c)[1])
  }

  /** The states that a valid beginning leads to. */
  ghost predicate Begun(mb: MbState) {
    Proper(mb) && exists s: seq<Byte> :: Decode(INITIAL, s) == Incomplete(mb)
  }

  method Mbrtoc16(s: seq<Byte>, st: State16) returns (r: Code16, u: Unit, st': State16)
    requires st.In? ==> Begun(st.mb)
    ensures st.Owes? ==> r == Again && u == st.low && st' == In(INITIAL)
    ensures st.In? ==> Reports16(st.mb, Decode(st.mb, s), r, u, st')
  {
    if st.Owes? { return Again, st.low, In(INITIAL); }
    hide Decode, Proper;
    var code, wc, mb := Mbrtowc(s, st.mb);
    u := 0;
    match code
    case ILSEQ => r, st' := ILSEQ16, In(mb);
    case INCOMPLETE => r, st' := INCOMPLETE16, In(mb);
    case Used(k) =>
      BegunScalar(st.mb, s);
      if wc >= 0x10000 {
        var v := wc - 0x10000;
        r, u, st' := Used16(k), 0xd800 + v / 1024, Owes(0xdc00 + v % 1024);
      } else {
        r, u, st' := Used16(k), wc, In(mb);
      }
  }

  lemma BegunScalar(mb: MbState, s: seq<Byte>)
    requires Begun(mb) && Decode(mb, s).Got?
    ensures Scalar(Decode(mb, s).c)
  {
    hide Decode, Scalar, Proper;
    var a: seq<Byte> :| Decode(INITIAL, a) == Incomplete(mb);
    Chunks(INITIAL, a, s);
    DecodeSound(a + s);
  }

  // ---- c16rtomb ----

  /** A state of `c16rtomb`: whether the first half of a pair was given. */
  datatype Half = None | High(u: Unit)

  datatype Code8 = Wrote(s: seq<Byte>) | Error

  /** The character that a unit completes. */
  function Pair(high: Unit, low: Unit): int { 0x10000 + (high - 0xd800) * 1024 + (low - 0xdc00) }

  /** What one unit gives. */
  function Take(st: Half, c: Unit): (Code8, Half)
    requires st.High? ==> 0xd800 <= st.u < 0xdc00
  {
    if st.High? then
      if 0xdc00 <= c < 0xe000 then (Wrote(Encode(Pair(st.u, c))), None) else (Error, None)
    else if 0xd800 <= c < 0xdc00 then (Wrote([]), High(c))
    else if 0xdc00 <= c < 0xe000 then (Error, None)
    else (Wrote(Encode(c)), None)
  }

  method C16rtomb(c: Unit, st: Half) returns (r: Code8, st': Half)
    requires st.High? ==> 0xd800 <= st.u < 0xdc00
    ensures (r, st') == Take(st, c)
  {
    if st.High? {
      if c < 0xdc00 || c > 0xdfff { return Error, None; }
      var v := 0x10000 + (st.u - 0xd800) * 1024 + (c - 0xdc00);
      var e := Wcrtomb(v);
      return if e.Bytes? then Wrote(e.s) else Error, None;
    }
    if 0xd800 <= c <= 0xdbff { return Wrote([]), High(c); }
    if 0xdc00 <= c <= 0xdfff { return Error, st; }
    var e := Wcrtomb(c);
    r, st' := if e.Bytes? then Wrote(e.s) else Error, st;
  }

  // ---- there ----

  function Concat(chunks: seq<seq<Byte>>): seq<Byte> {
    if chunks == [] then [] else Concat(chunks[..|chunks| - 1]) + chunks[|chunks| - 1]
  }

  /** s is well-formed UTF-8 to its end. */
  predicate WellFormed(s: seq<Byte>) { var t := Stream(INITIAL, s); t.ok && t.st == INITIAL }

  /** What the bytes fed so far gave: the units us, with what is owed the form of the characters. */
  ghost predicate Fed16(fed: seq<Byte>, us: seq<Unit>, st: State16, mb: MbState) {
    var t := Stream(INITIAL, fed);
    && t.ok && t.st == mb && Begun(mb) && Scalars(t.chars)
    && (if st.Owes? then mb == INITIAL && us + [st.low] == UnitsAll(t.chars)
        else st == In(mb) && us == UnitsAll(t.chars))
  }

  /** A text in pieces, each fed to `mbrtoc16` until nothing of it is left and nothing is owed. */
  method ToUtf16(chunks: seq<seq<Byte>>) returns (us: seq<Unit>, ok: bool)
    ensures ok <==> WellFormed(Concat(chunks))
    ensures ok ==>
        Scalars(Stream(INITIAL, Concat(chunks)).chars) && us == UnitsAll(Stream(INITIAL, Concat(chunks)).chars)
  {
    hide Decode, Stream, Begun;
    us := [];
    var st := In(INITIAL);
    NothingFed();
    assert chunks[..0] == [];
    for j := 0 to |chunks|
      invariant st.In? && Fed16(Concat(chunks[..j]), us, st, st.mb)
    {
      assert chunks[..j + 1][..j] == chunks[..j];
      us, st, ok := FeedChunk(chunks[j], us, st, Concat(chunks[..j]));
      if !ok {
        NeverAgain(chunks, j + 1);
        return us, false;
      }
    }
    assert chunks[..|chunks|] == chunks;
    ok := st == In(INITIAL);
  }

  method FeedChunk(c: seq<Byte>, us0: seq<Unit>, st0: State16, ghost fed: seq<Byte>)
    returns (us: seq<Unit>, st: State16, ok: bool)
    requires st0.In? && Fed16(fed, us0, st0, st0.mb)
    ensures ok <==> Stream(INITIAL, fed + c).ok
    ensures ok ==> st.In? && Fed16(fed + c, us, st, st.mb)
  {
    hide Decode, Stream, Begun, Scalars, UnitsAll, Units, Scalar;
    us, st := us0, st0;
    var i := 0;
    ghost var mb := st.mb;
    assert fed + c[..0] == fed;
    while i < |c| || st.Owes?
      invariant i <= |c| && Fed16(fed + c[..i], us, st, mb)
      decreases |c| - i, st.Owes?
    {
      var r, u;
      r, u, st := Mbrtoc16(c[i..], st);
      if r.Again? {
        us := us + [u];
      } else {
        assert (fed + c[..i]) + c[i..] == fed + c;
        FeedOne(fed + c[..i], c[i..], us, mb, r, u, st);
        if r.ILSEQ16? { return us, st, false; }
        if r.INCOMPLETE16? { return us, st, true; }
        var k := if r.k == 0 then 1 else r.k;
        assert fed + c[..i + k] == (fed + c[..i]) + c[i..][..k];
        us, i, mb := us + [u], i + k, INITIAL;
      }
    }
    assert fed + c[..i] == fed + c;
    ok := true;
  }

  lemma NothingFed()
    ensures Fed16([], [], In(INITIAL), INITIAL)
  {
    assert Decode(INITIAL, []) == Incomplete(INITIAL);
  }

  /** One call that is not owed a unit. */
  lemma FeedOne(fed: seq<Byte>, c: seq<Byte>, us: seq<Unit>, mb: MbState, r: Code16, u: Unit, st: State16)
    requires Fed16(fed, us, In(mb), mb) && Reports16(mb, Decode(mb, c), r, u, st)
    ensures !r.Again?
    ensures r.ILSEQ16? ==> !Stream(INITIAL, fed + c).ok
    ensures r.INCOMPLETE16? ==> st.In? && Fed16(fed + c, us, st, st.mb)
    ensures r.Used16? ==> var k := if r.k == 0 then 1 else r.k; k <= |c| && Fed16(fed + c[..k], us + [u], st, INITIAL)
  {
    hide Decode, Stream, Begun, Scalars, UnitsAll, Units, Scalar;
    var cs := Stream(INITIAL, fed).chars;
    StreamUnfold(mb, c);
    match Decode(mb, c)
    case Illegal => AnyChunking(INITIAL, fed, c);
    case Incomplete(t) =>
      AnyChunking(INITIAL, fed, c);
      BegunKept(mb, c);
      assert cs + [] == cs;
    case Got(ch, k) =>
      OwnBytes(mb, c);
      OneChar(mb, c[..k], ch);
      if ch == 0 { NullByte(mb, c); }
      AnyChunking(INITIAL, fed, c[..k]);
      UnitsSnoc(cs, ch);
      UnitsShape(ch);
      NothingFed();
      if mb.need == 0 { BegunNeeds(mb); }
  }

  lemma BegunNeeds(mb: MbState)
    requires Begun(mb) && mb.need == 0
    ensures mb == INITIAL
  {
  }

  lemma UnitsShape(c: int)
    requires Scalar(c)
    ensures c < 0x10000 ==> Units(c) == [Units(c)[0]]
    ensures c >= 0x10000 ==> Units(c) == [Units(c)[0], Units(c)[1]]
  {
  }

  lemma StreamUnfold(mb: MbState, c: seq<Byte>)
    ensures Decode(mb, c).Illegal? ==> Stream(mb, c) == Text([], INITIAL, false)
    ensures Decode(mb, c).Incomplete? ==> Stream(mb, c) == Text([], Decode(mb, c).st, true)
  {
  }

  lemma OneChar(mb: MbState, s: seq<Byte>, c: int)
    requires Decode(mb, s) == Got(c, |s|)
    ensures Stream(mb, s) == Text([c], INITIAL, true)
  {
    hide Decode;
    StreamGot(mb, s, c, |s|);
    assert s[|s|..] == [];
    StreamUnfold(INITIAL, []);
    EmptyDecode();
  }

  lemma EmptyDecode()
    ensures Decode(INITIAL, []) == Incomplete(INITIAL)
  {
  }

  /** The null character is one byte. */
  lemma NullByte(mb: MbState, s: seq<Byte>)
    requires Begun(mb) && Decode(mb, s).Got? && Decode(mb, s).c == 0
    ensures Decode(mb, s).used == 1
  {
    hide Decode, Proper;
    var a: seq<Byte> :| Decode(INITIAL, a) == Incomplete(mb);
    Chunks(INITIAL, a, s);
    DecodeSound(a + s);
    OwnBytes(mb, s);
  }

  lemma BegunKept(mb: MbState, s: seq<Byte>)
    requires Begun(mb) && Decode(mb, s).Incomplete?
    ensures Begun(Decode(mb, s).st)
  {
    hide Decode, Proper;
    var a: seq<Byte> :| Decode(INITIAL, a) == Incomplete(mb);
    Chunks(INITIAL, a, s);
    ProperKept(mb, s);
  }

  lemma {:induction false} ProperKept(mb: MbState, s: seq<Byte>)
    requires Proper(mb) && Decode(mb, s).Incomplete?
    ensures Proper(Decode(mb, s).st)
    decreases |s|
  {
    if s != [] {
      var next := Feed(mb, s[0]).st;
      if mb.need > 0 { NotNull(mb.c, mb.need, mb.lead, s[0]); }
      assert Proper(next);
      ProperKept(next, s[1..]);
    }
  }

  lemma {:induction false} UnitsSnoc(cs: seq<int>, c: int)
    requires Scalars(cs) && Scalar(c)
    ensures Scalars(cs + [c]) && UnitsAll(cs + [c]) == UnitsAll(cs) + Units(c)
    decreases |cs|
  {
    hide Scalar, Units;
    assert Scalars(cs + [c]);
    if cs == [] {
      assert (cs + [c])[1..] == [] && UnitsAll([]) == [] && Units(c) + [] == Units(c);
    } else {
      UnitsSnoc(cs[1..], c);
      assert (cs + [c])[1..] == cs[1..] + [c];
    }
  }

  /** What once was wrong stays wrong. */
  lemma {:induction false} NeverAgain(chunks: seq<seq<Byte>>, j: nat)
    requires j <= |chunks| && !Stream(INITIAL, Concat(chunks[..j])).ok
    ensures !Stream(INITIAL, Concat(chunks)).ok
    decreases |chunks|
  {
    hide Stream, Decode;
    if j == |chunks| {
      assert chunks[..j] == chunks;
    } else {
      var p := chunks[..|chunks| - 1];
      assert p[..j] == chunks[..j];
      NeverAgain(p, j);
      AnyChunking(INITIAL, Concat(p), chunks[|chunks| - 1]);
    }
  }

  // ---- and back ----

  /** The bytes of a UTF-16 text, and what is awaited at its end. */
  datatype Bytes8 = Bytes8(s: seq<Byte>, st: Half, ok: bool)

  /** One `c16rtomb` call after the other. */
  function Back(st: Half, us: seq<Unit>): Bytes8
    requires st.High? ==> 0xd800 <= st.u < 0xdc00
    decreases |us|
  {
    if us == [] then Bytes8([], st, true)
    else
      var (r, st') := Take(st, us[0]);
      if r.Error? then Bytes8([], st', false)
      else var rest := Back(st', us[1..]); Bytes8(r.s + rest.s, rest.st, rest.ok)
  }

  method FromUtf16(us: seq<Unit>) returns (s: seq<Byte>, ok: bool)
    ensures var b := Back(None, us); (ok <==> b.ok && b.st == None) && (ok ==> s == b.s)
  {
    hide Take;
    s := [];
    var st := None;
    ghost var all := Back(None, us);
    assert us[0..] == us;
    for i := 0 to |us|
      invariant st.High? ==> 0xd800 <= st.u < 0xdc00
      invariant var rest := Back(st, us[i..]);
                all.ok == rest.ok && (rest.ok ==> all == Bytes8(s + rest.s, rest.st, true))
    {
      var r;
      TakeRange(st, us[i]);
      assert us[i..][1..] == us[i + 1..];
      r, st := C16rtomb(us[i], st);
      if r.Error? { return s, false; }
      s := s + r.s;
    }
    ok := st == None;
  }

  lemma TakeRange(st: Half, c: Unit)
    requires st.High? ==> 0xd800 <= st.u < 0xdc00
    ensures Take(st, c).1.High? ==> 0xd800 <= Take(st, c).1.u < 0xdc00
  {
  }

  /** The units of a character followed by more. */
  lemma BackOne(c: int, us: seq<Unit>)
    requires Scalar(c)
    ensures var rest := Back(None, us); Back(None, Units(c) + us) == Bytes8(Encode(c) + rest.s, rest.st, rest.ok)
  {
    var all := Units(c) + us;
    if c < 0x10000 {
      assert all[1..] == us;
    } else {
      var hi, lo := Units(c)[0], Units(c)[1];
      assert all[1..][1..] == us && all[1..][0] == lo;
      assert Pair(hi, lo) == c;
      hide Encode;
      var rest := Back(None, us);
      assert Back(High(hi), all[1..]) == Bytes8(Encode(c) + rest.s, rest.st, rest.ok);
      assert [] + (Encode(c) + rest.s) == Encode(c) + rest.s;
    }
  }

  /** `c16rtomb` takes the form of a text to its UTF-8. */
  lemma {:induction false} BackAll(cs: seq<int>)
    requires Scalars(cs)
    ensures Back(None, UnitsAll(cs)) == Bytes8(EncodeAll(cs), None, true)
    decreases |cs|
  {
    hide Units, Encode, Take;
    if cs != [] {
      BackAll(cs[1..]);
      BackOne(cs[0], UnitsAll(cs[1..]));
    }
  }

  /** What `c16rtomb` takes to the end without an error is the form of a text. */
  lemma {:induction false} BackOnly(us: seq<Unit>) returns (cs: seq<int>)
    requires Back(None, us).ok && Back(None, us).st == None
    ensures Scalars(cs) && us == UnitsAll(cs)
    decreases |us|
  {
    if us == [] { return []; }
    var c, k := us[0], 1;
    if 0xd800 <= c < 0xdc00 {
      assert us[1..] != [];
      c, k := Pair(us[0], us[1]), 2;
      PairUnits(us[0], us[1]);
      assert us[1..][1..] == us[2..];
    }
    var rest := BackOnly(us[k..]);
    cs := [c] + rest;
    assert cs[1..] == rest;
    assert us == us[..k] + us[k..] && us[..k] == Units(c);
  }

  lemma PairUnits(hi: Unit, lo: Unit)
    requires 0xd800 <= hi < 0xdc00 && 0xdc00 <= lo < 0xe000
    ensures 0x10000 <= Pair(hi, lo) < 0x110000 && Units(Pair(hi, lo)) == [hi, lo]
  {
    assert (hi - 0xd800) * 1024 + (lo - 0xdc00) == Pair(hi, lo) - 0x10000;
  }

  /** UTF-8 to UTF-16 and back is the identity, whatever the pieces. */
  method ThereAndBack(chunks: seq<seq<Byte>>) returns (s: seq<Byte>, ok: bool)
    ensures ok <==> WellFormed(Concat(chunks))
    ensures ok ==> s == Concat(chunks)
  {
    hide Stream, Back, UnitsAll, EncodeAll;
    s := [];
    var us;
    us, ok := ToUtf16(chunks);
    if ok {
      ghost var cs := Stream(INITIAL, Concat(chunks)).chars;
      RoundTripBack(Concat(chunks));
      BackAll(cs);
      s, ok := FromUtf16(us);
    }
  }
}
