/** `mbrtoc8` and `c8rtomb` of src/uchar.c: a character is given out, and taken in, one byte at a time, with
    the bytes in between kept in the conversion state. */
module Uchar8 {
  import opened Utf8
  import U = Utf16

  // ---- mbrtoc8 ----

  /** In the middle of a character, or owing the rest of its bytes. */
  datatype State8 = In(mb: MbState) | Owes(rest: seq<Byte>)

  datatype Code8 = Used8(k: nat) | Again | ILSEQ8 | INCOMPLETE8

  /** Nothing owed. */
  function After(s: seq<Byte>): State8 { if s == [] then In(INITIAL) else Owes(s) }

  ghost predicate Reports8(mb: MbState, o: Outcome, r: Code8, u: Byte, st': State8) {
    match o
    case Illegal => r == ILSEQ8 && st' == In(INITIAL)
    case Incomplete(t) => r == INCOMPLETE8 && st' == In(t)
    case Got(c, k) =>
        Scalar(c) && r == Used8(if c == 0 then 0 else k) && u == Encode(c)[0] && st' == After(Encode(c)[1..])
  }

  method Mbrtoc8(s: seq<Byte>, st: State8) returns (r: Code8, u: Byte, st': State8)
    requires if st.In? then U.Begun(st.mb) else st.rest != []
    ensures st.Owes? ==> r == Again && u == st.rest[0] && st' == After(st.rest[1..])
    ensures st.In? ==> Reports8(st.mb, Decode(st.mb, s), r, u, st')
  {
    u := 0;
    if st.Owes? {
      var k := |st.rest| - 1;
      return Again, st.rest[0], if k > 0 then Owes(st.rest[1..]) else In(INITIAL);
    }
    hide Decode, Proper, Encode;
    var code, wc, mb := Mbrtowc(s, st.mb);
    match code {
      case ILSEQ => r, st' := ILSEQ8, In(mb);
      case INCOMPLETE => r, st' := INCOMPLETE8, In(mb);
      case Used(k) =>
        U.BegunScalar(st.mb, s);
        ScalarRange(wc);
        var e := Wcrtomb(wc);
        var b := e.s;
        r, u := Used8(k), b[0];
        if |b| > 1 { st' := Owes(b[1..]); } else {
          if st.mb.need == 0 { U.BegunNeeds(st.mb); }
          st' := In(mb);
        }
    }
  }

  lemma ScalarRange(c: int)
    requires Scalar(c)
    ensures 0 <= c < 0x110000
  {
  }

  /** What the bytes fed so far gave: the bytes us, with what is owed the form of the characters. */
  ghost predicate Fed8(fed: seq<Byte>, us: seq<Byte>, st: State8, mb: MbState) {
    var t := Stream(INITIAL, fed);
    && t.ok && t.st == mb && U.Begun(mb) && Scalars(t.chars)
    && (if st.Owes? then mb == INITIAL && st.rest != [] && us + st.rest == EncodeAll(t.chars)
        else st == In(mb) && us == EncodeAll(t.chars))
  }

  /** A text in pieces, each fed to `mbrtoc8` until nothing of it is left and nothing is owed. */
  method ToBytes(chunks: seq<seq<Byte>>) returns (us: seq<Byte>, ok: bool)
    ensures ok <==> U.WellFormed(U.Concat(chunks))
    ensures ok ==> us == U.Concat(chunks)
  {
    hide Decode, Stream, U.Begun, EncodeAll;
    us := [];
    var st := In(INITIAL);
    NothingFed();
    assert chunks[..0] == [];
    for j := 0 to |chunks|
      invariant st.In? && Fed8(U.Concat(chunks[..j]), us, st, st.mb)
    {
      assert chunks[..j + 1][..j] == chunks[..j];
      us, st, ok := FeedChunk(chunks[j], us, st, U.Concat(chunks[..j]));
      if !ok {
        U.NeverAgain(chunks, j + 1);
        return us, false;
      }
    }
    assert chunks[..|chunks|] == chunks;
    ok := st == In(INITIAL);
    if ok { RoundTripBack(U.Concat(chunks)); }
  }

  method FeedChunk(c: seq<Byte>, us0: seq<Byte>, st0: State8, ghost fed: seq<Byte>)
    returns (us: seq<Byte>, st: State8, ok: bool)
    requires st0.In? && Fed8(fed, us0, st0, st0.mb)
    ensures ok <==> Stream(INITIAL, fed + c).ok
    ensures ok ==> st.In? && Fed8(fed + c, us, st, st.mb)
  {
    hide Decode, Stream, U.Begun, Scalars, EncodeAll, Encode, Scalar;
    us, st := us0, st0;
    var i := 0;
    ghost var mb := st.mb;
    assert fed + c[..0] == fed;
    while i < |c| || st.Owes?
      invariant i <= |c| && Fed8(fed + c[..i], us, st, mb)
      decreases |c| - i, if st.Owes? then |st.rest| else 0
    {
      var r, u;
      ghost var was := st;
      r, u, st := Mbrtoc8(c[i..], st);
      if r.Again? {
        Paid(us, was.rest);
        us := us + [u];
      } else {
        assert (fed + c[..i]) + c[i..] == fed + c;
        FeedOne(fed + c[..i], c[i..], us, mb, r, u, st);
        if r.ILSEQ8? { return us, st, false; }
        if r.INCOMPLETE8? { return us, st, true; }
        var k := if r.k == 0 then 1 else r.k;
        assert fed + c[..i + k] == (fed + c[..i]) + c[i..][..k];
        us, i, mb := us + [u], i + k, INITIAL;
      }
    }
    assert fed + c[..i] == fed + c;
    ok := true;
  }

  lemma Paid(us: seq<Byte>, rest: seq<Byte>)
    requires rest != []
    ensures us + rest == us + [rest[0]] + rest[1..]
    ensures rest[1..] == [] ==> us + rest == us + [rest[0]]
  {
  }

  lemma NothingFed()
    ensures Fed8([], [], In(INITIAL), INITIAL)
  {
    assert Decode(INITIAL, []) == Incomplete(INITIAL);
  }

  lemma FeedOne(fed: seq<Byte>, c: seq<Byte>, us: seq<Byte>, mb: MbState, r: Code8, u: Byte, st: State8)
    requires Fed8(fed, us, In(mb), mb) && Reports8(mb, Decode(mb, c), r, u, st)
    ensures !r.Again?
    ensures r.ILSEQ8? ==> !Stream(INITIAL, fed + c).ok
    ensures r.INCOMPLETE8? ==> st.In? && Fed8(fed + c, us, st, st.mb)
    ensures r.Used8? ==> var k := if r.k == 0 then 1 else r.k; k <= |c| && Fed8(fed + c[..k], us + [u], st, INITIAL)
  {
    hide Decode, Stream, U.Begun, Scalars, EncodeAll, Encode, Scalar;
    var cs := Stream(INITIAL, fed).chars;
    U.StreamUnfold(mb, c);
    match Decode(mb, c)
    case Illegal => AnyChunking(INITIAL, fed, c);
    case Incomplete(t) =>
      AnyChunking(INITIAL, fed, c);
      U.BegunKept(mb, c);
      assert cs + [] == cs;
    case Got(ch, k) =>
      OwnBytes(mb, c);
      U.OneChar(mb, c[..k], ch);
      if ch == 0 { U.NullByte(mb, c); }
      AnyChunking(INITIAL, fed, c[..k]);
      EncodeSnoc(cs, ch);
      var e := Encode(ch);
      Paid(us, e);
      NothingFed();
  }

  lemma {:induction false} EncodeSnoc(cs: seq<int>, c: int)
    requires Scalars(cs) && Scalar(c)
    ensures Scalars(cs + [c]) && EncodeAll(cs + [c]) == EncodeAll(cs) + Encode(c)
    decreases |cs|
  {
    hide Scalar, Encode;
    assert Scalars(cs + [c]);
    if cs == [] {
      assert (cs + [c])[1..] == [] && EncodeAll([]) == [] && Encode(c) + [] == Encode(c);
    } else {
      EncodeSnoc(cs[1..], c);
      assert (cs + [c])[1..] == cs[1..] + [c];
    }
  }

  // ---- c8rtomb ----

  datatype Out8 = Wrote(s: seq<Byte>) | Error

  /** The bytes given so far begin a character. */
  ghost predicate Begins(have: seq<Byte>) { have == [] || Decode(INITIAL, have).Incomplete? }

  /** What one more byte gives: nothing yet, the character, or an error. */
  function Take(have: seq<Byte>, c: Byte): (Out8, seq<Byte>) {
    match Decode(INITIAL, have + [c])
    case Illegal => (Error, [])
    case Incomplete(_) => (Wrote([]), have + [c])
    case Got(_, _) => (Wrote(have + [c]), [])
  }

  method C8rtomb(c: Byte, have: seq<Byte>) returns (r: Out8, have': seq<Byte>)
    requires Begins(have)
    ensures (r, have') == Take(have, c) && Begins(have')
  {
    if have == [] {
      FirstByte(c);
      if c < 0x80 { return Wrote([c]), []; }
      if c < 0xc2 || c > 0xf4 { return Error, []; }
      return Wrote([]), [c];
    }
    hide Decode;
    var b := have + [c];
    var need := if b[0] < 0xe0 then 2 else if b[0] < 0xf0 then 3 else 4;
    var code, wc, st := Mbrtowc(b, INITIAL);
    LengthSays(have, c);
    if code.ILSEQ? { return Error, []; }
    if |have| + 1 < need { return Wrote([]), b; }
    r, have' := Wrote(b), [];
  }

  lemma FirstByte(c: Byte)
    ensures [] + [c] == [c]
    ensures Decode(INITIAL, [c]) == if c < 0x80 then Got(c, 1)
        else if c < 0xc2 || c > 0xf4 then Illegal else Incomplete(Begin(c).st)
  {
    assert [c][1..] == [];
  }

  /** The first byte says how many bytes a character has. */
  lemma LengthSays(have: seq<Byte>, c: Byte)
    requires have != [] && Decode(INITIAL, have).Incomplete?
    ensures var b := have + [c]; var need := if b[0] < 0xe0 then 2 else if b[0] < 0xf0 then 3 else 4;
            Decode(INITIAL, b).Illegal? || (Decode(INITIAL, b).Incomplete? <==> |have| + 1 < need)
  {
    var lead := have[0];
    var st := Begin(lead).st;
    Missing(st, have[1..]);
    var t := Decode(INITIAL, have).st;
    assert Decode(INITIAL, have) == Decode(st, have[1..]);
    Chunks(INITIAL, have, [c]);
    assert [c][1..] == [];
  }

  lemma {:induction false} Missing(st: MbState, s: seq<Byte>)
    requires st.need > 0 && Decode(st, s).Incomplete?
    ensures Decode(st, s).st.need == st.need - |s| > 0
    decreases |s|
  {
    if s != [] { Missing(Feed(st, s[0]).st, s[1..]); }
  }

  /** One `c8rtomb` call after the other. */
  datatype Bytes8 = Bytes8(s: seq<Byte>, have: seq<Byte>, ok: bool)

  function Back(have: seq<Byte>, us: seq<Byte>): Bytes8
    decreases |us|
  {
    if us == [] then Bytes8([], have, true)
    else
      var (r, have') := Take(have, us[0]);
      if r.Error? then Bytes8([], [], false)
      else var rest := Back(have', us[1..]); Bytes8(r.s + rest.s, rest.have, rest.ok)
  }

  method FromBytes(us: seq<Byte>) returns (s: seq<Byte>, ok: bool)
    ensures var b := Back([], us); (ok <==> b.ok && b.have == []) && (ok ==> s == b.s)
  {
    hide Take, Decode;
    s := [];
    var have: seq<Byte> := [];
    ghost var all := Back([], us);
    assert us[0..] == us;
    for i := 0 to |us|
      invariant Begins(have)
      invariant var rest := Back(have, us[i..]);
                all.ok == rest.ok && (rest.ok ==> all == Bytes8(s + rest.s, rest.have, true))
    {
      var r;
      assert us[i..][1..] == us[i + 1..];
      r, have := C8rtomb(us[i], have);
      if r.Error? { return s, false; }
      s := s + r.s;
    }
    ok := have == [];
  }

  /** `c8rtomb` takes well-formed UTF-8 and nothing else, and gives it back. */
  lemma {:induction false} BackIs(have: seq<Byte>, us: seq<Byte>)
    requires Begins(have)
    ensures var b := Back(have, us);
            (b.ok && b.have == [] <==> U.WellFormed(have + us)) && (b.ok && b.have == [] ==> b.s == have + us)
    decreases |us|
  {
    hide Decode, Stream;
    if us == [] {
      assert have + us == have;
      EndsOpen(have);
    } else {
      var b := have + [us[0]];
      assert have + us == b + us[1..];
      var o := Decode(INITIAL, b);
      var (r, have') := Take(have, us[0]);
      if o.Illegal? {
        U.StreamUnfold(INITIAL, b);
        AnyChunking(INITIAL, b, us[1..]);
      } else {
        BackIs(have', us[1..]);
        if o.Got? {
          assert [] + us[1..] == us[1..];
          WholeChar(have, us[0]);
          U.OneChar(INITIAL, b, o.c);
          AnyChunking(INITIAL, b, us[1..]);
        } else {
          assert b + us[1..] == have + us;
          assert [] + Back(have', us[1..]).s == Back(have', us[1..]).s;
        }
      }
    }
  }

  lemma EndsOpen(have: seq<Byte>)
    requires Begins(have)
    ensures U.WellFormed(have) <==> have == []
  {
    if have != [] { MissingBytes(INITIAL, have); }
  }

  /** A character is complete with its last byte. */
  lemma WholeChar(have: seq<Byte>, c: Byte)
    requires Begins(have) && Decode(INITIAL, have + [c]).Got?
    ensures Decode(INITIAL, have + [c]).used == |have| + 1
  {
    hide Decode;
    OwnBytes(INITIAL, have + [c]);
    var k := Decode(INITIAL, have + [c]).used;
    if k <= |have| {
      assert (have + [c])[..k] == have[..k];
      assert have[..k] + have[k..] == have;
      Decided(INITIAL, have[..k], have[k..]);
    }
  }

  /** There and back is the identity, whatever the pieces. */
  method ThereAndBack(chunks: seq<seq<Byte>>) returns (s: seq<Byte>, ok: bool)
    ensures ok <==> U.WellFormed(U.Concat(chunks))
    ensures ok ==> s == U.Concat(chunks)
  {
    hide Back, Stream;
    s := [];
    var us;
    us, ok := ToBytes(chunks);
    if ok {
      BackIs([], us);
      assert [] + us == us;
      s, ok := FromBytes(us);
    }
  }
}
