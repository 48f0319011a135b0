/** What the matcher of src/regex.c decodes, and what a back-reference matches, said of the text alone. */
module RegexRefer {
  import Utf8
  import Iconv
  import opened RegexText
  import opened RegexProgram
  import opened RegexMeaning

  // ---- single characters ----

  /** `dec` finds the character that a text begins with, and takes any other byte for itself. */
  lemma DecIs(s: seq<Byte>)
    requires s != []
    ensures var o := Utf8.Decode(Utf8.INITIAL, s);
            Dec(s) == if o.Got? then Decoded(o.c, o.used) else Decoded(BAD + s[0], 1)
  {
    hide Utf8.Decode; hide Complete; hide Iconv.Tail;
    Iconv.SameUtf8(s);
    var n := Utf8.Announced(s[0]);
    if s[0] >= 0x80 && n > 0 { TailIs(s, n); }
    if s[0] >= 0x80 && n == 0 { assert !Complete(s, n) by { NoneAnnounced(s); } }
  }

  lemma NoneAnnounced(s: seq<Byte>)
    requires s != []
    ensures !Complete(s, 0)
  {
  }

  lemma TailIs(s: seq<Byte>, n: nat)
    requires s != [] && 2 <= n <= 4
    ensures var t := Iconv.Tail(s, n, 1, Utf8.LeadBits(s[0], n));
            (t.Reads? <==> Complete(s, n)) && (t.Reads? ==> t == Iconv.Reads(CodePoint(s, n), n))
  {
    TailFrom(s, n, 1, Utf8.LeadBits(s[0], n));
  }

  lemma {:induction false} TailFrom(s: seq<Byte>, n: nat, i: nat, v: nat)
    requires 1 <= i <= n <= 4 && i <= |s|
    ensures var t := Iconv.Tail(s, n, i, v);
            && (t.Reads? <==>
                n <= |s| && (forall k | i <= k < n :: Continuation(s[k])) && !Overlong(n, Gather(s, v, i, n)))
            && (t.Reads? ==> t == Iconv.Reads(Gather(s, v, i, n), n))
    decreases n - i
  {
    if i < n && i < |s| && Continuation(s[i]) { TailFrom(s, n, i + 1, v * 64 + s[i] % 64); }
  }

  /** A character below BAD is a scalar value, in its UTF-8 form; the others are single bytes. */
  lemma DecBytes(s: seq<Byte>)
    requires s != []
    ensures var d := Dec(s);
            if d.c < BAD then Utf8.Scalar(d.c) && s[..d.n] == Utf8.Encode(d.c) else d.n == 1 && d.c == BAD + s[0]
  {
    hide Utf8.Decode; hide Utf8.Encode; hide Dec;
    DecIs(s);
    if Utf8.Decode(Utf8.INITIAL, s).Got? { Utf8.DecodeSound(s); }
  }

  /** And a UTF-8 form is read as the character it is. */
  lemma DecEncoded(c: int, s: seq<Byte>)
    requires Utf8.Scalar(c) && Utf8.Encode(c) <= s
    ensures s != [] && Dec(s) == Decoded(c, |Utf8.Encode(c)|)
  {
    hide Utf8.Decode; hide Utf8.Encode; hide Dec;
    var e := Utf8.Encode(c);
    Utf8.DecodeEncoded(c);
    Utf8.Decided(Utf8.INITIAL, e, s[|e|..]);
    assert s == e + s[|e|..];
    DecIs(s);
  }

  // ---- texts ----

  /** The characters of a text. */
  function Chars(s: seq<Byte>): seq<int>
    decreases |s|
  {
    if s == [] then [] else [Dec(s).c] + Chars(s[Dec(s).n..])
  }

  /** From pos on there are these characters, up to r. */
  predicate Spells(v: Subject, pos: nat, r: int, cs: seq<int>)
    requires v.Valid()
    decreases |cs|
  {
    if cs == [] then r == pos
    else pos < v.end && CharAt(v, pos).c == cs[0] && Spells(v, pos + CharAt(v, pos).n, r, cs[1..])
  }

  /** The same character, or one that differs in case only if that is not to matter. */
  predicate Alike(v: Subject, a: int, b: int) {
    a == b || (v.icase && a < BAD && b < BAD && v.lower(a) == v.lower(b))
  }

  predicate AllAlike(v: Subject, a: seq<int>, b: seq<int>) {
    |a| == |b| && forall i | 0 <= i < |a| :: Alike(v, a[i], b[i])
  }

  /** What a group holds. */
  function Held(v: Subject, so: nat, eo: nat): seq<Byte> { if so < eo <= |v.s| then v.s[so..eo] else [] }

  /** From pos to r the text repeats what a group holds. */
  ghost predicate Repeated(v: Subject, so: nat, eo: nat, pos: nat, r: int)
    requires v.Valid()
  {
    exists cs :: Spells(v, pos, r, cs) && AllAlike(v, Chars(Held(v, so, eo)), cs)
  }

  lemma {:induction false} CompareIs(v: Subject, q: nat, e: nat, pos: nat, r: int)
    requires v.Valid() && (q >= e || e <= |v.s|) && r >= 0
    ensures Compare(v, q, e, pos) == r <==> Repeated(v, q, e, pos, r)
    decreases e - q
  {
    hide Dec; hide CharAt;
    var A := Chars(Held(v, q, e));
    if q >= e {
      assert Spells(v, pos, pos, []) && AllAlike(v, A, []);
    } else {
      var c1, c2 := Dec(v.s[q..e]), CharAt(v, pos);
      CharAtEnd(v, pos);
      assert Held(v, q, e)[c1.n..] == Held(v, q + c1.n, e);
      CompareIs(v, q + c1.n, e, pos + c2.n, r);
      if Compare(v, q, e, pos) == r { RepeatedMore(v, q, e, pos, r, c1, c2); }
      if Repeated(v, q, e, pos, r) { RepeatedLess(v, q, e, pos, r, c1, c2); }
    }
  }

  lemma CharAtEnd(v: Subject, pos: nat)
    requires v.Valid()
    ensures pos >= v.end <==> CharAt(v, pos).c < 0
  {
    if pos < v.end { DecPositive(v.s[pos..v.end]); }
  }

  lemma DecPositive(s: seq<Byte>)
    requires s != []
    ensures Dec(s).c >= 0
  {
    hide Dec;
    DecBytes(s);
  }

  lemma RepeatedMore(v: Subject, q: nat, e: nat, pos: nat, r: int, c1: Decoded, c2: Decoded)
    requires v.Valid() && q < e <= |v.s| && c1 == Dec(v.s[q..e]) && c2 == CharAt(v, pos) && pos < v.end
    requires Alike(v, c1.c, c2.c) && Repeated(v, q + c1.n, e, pos + c2.n, r)
    ensures Repeated(v, q, e, pos, r)
  {
    hide Dec; hide CharAt;
    assert Held(v, q, e)[c1.n..] == Held(v, q + c1.n, e);
    var B := Chars(Held(v, q + c1.n, e));
    var ds :| Spells(v, pos + c2.n, r, ds) && AllAlike(v, B, ds);
    var cs := [c2.c] + ds;
    assert cs[1..] == ds;
    assert Spells(v, pos, r, cs) && AllAlike(v, [c1.c] + B, cs);
  }

  lemma RepeatedLess(v: Subject, q: nat, e: nat, pos: nat, r: int, c1: Decoded, c2: Decoded)
    requires v.Valid() && q < e <= |v.s| && c1 == Dec(v.s[q..e]) && c2 == CharAt(v, pos)
    requires Repeated(v, q, e, pos, r)
    ensures pos < v.end && Alike(v, c1.c, c2.c) && Repeated(v, q + c1.n, e, pos + c2.n, r)
  {
    hide Dec; hide CharAt;
    assert Held(v, q, e)[c1.n..] == Held(v, q + c1.n, e);
    var A, B := Chars(Held(v, q, e)), Chars(Held(v, q + c1.n, e));
    assert A == [c1.c] + B;
    var cs :| Spells(v, pos, r, cs) && AllAlike(v, A, cs);
    assert Alike(v, A[0], cs[0]);
    forall i | 0 <= i < |B| ensures Alike(v, B[i], cs[1..][i]) { assert Alike(v, A[i + 1], cs[i + 1]); }
    assert Spells(v, pos + c2.n, r, cs[1..]) && AllAlike(v, B, cs[1..]);
  }

  /** A back-reference leads from pos to r exactly when both ends of its group are set and the text from pos to r
      repeats what the group holds, character for character. */
  lemma ReferIs(v: Subject, k: Pos, a: St, r: int)
    requires v.Valid() && r >= 0 && forall i | 0 <= i < |a.caps| :: a.caps[i] <= v.end
    ensures var so, eo := Get(a.caps, 2 * k), Get(a.caps, 2 * k + 1);
            Refer(v, k, a) == r <==> so >= 0 && eo >= 0 && Repeated(v, so, eo, a.pos, r)
  {
    hide Compare; hide Repeated;
    var so, eo := Get(a.caps, 2 * k), Get(a.caps, 2 * k + 1);
    if so >= 0 && eo >= 0 { CompareIs(v, so, eo, a.pos, r); }
  }

  // ---- bytes ----

  /** Characters that are equal have equal bytes. */
  lemma SameBytes(s: seq<Byte>, t: seq<Byte>)
    requires s != [] && t != [] && Dec(s).c == Dec(t).c
    ensures Dec(s) == Dec(t) && s[..Dec(s).n] == t[..Dec(t).n]
  {
    hide Dec; hide Utf8.Encode;
    DecBytes(s); DecBytes(t);
    if Dec(s).c >= BAD { assert s[..1] == [s[0]] && t[..1] == [t[0]]; }
  }

  lemma {:induction false} SpelledBytes(v: Subject, s: seq<Byte>, pos: nat, r: int)
    requires v.Valid() && pos <= v.end && Spells(v, pos, r, Chars(s))
    ensures pos <= r <= v.end && v.s[pos..r] == s
    decreases |s|
  {
    hide Dec;
    if s != [] {
      var d, t := Dec(s), v.s[pos..v.end];
      assert Chars(s)[1..] == Chars(s[d.n..]);
      SameBytes(s, t);
      SpelledBytes(v, s[d.n..], pos + d.n, r);
      assert t[..d.n] == v.s[pos..pos + d.n];
      assert v.s[pos..r] == v.s[pos..pos + d.n] + v.s[pos + d.n..r];
      assert s == s[..d.n] + s[d.n..];
    }
  }

  predicate WellFormedText(s: seq<Byte>) { forall i | 0 <= i < |Chars(s)| :: Chars(s)[i] < BAD }

  lemma {:induction false} BytesSpell(v: Subject, s: seq<Byte>, pos: nat)
    requires v.Valid() && pos + |s| <= v.end && v.s[pos..pos + |s|] == s && WellFormedText(s)
    ensures Spells(v, pos, pos + |s|, Chars(s))
    decreases |s|
  {
    hide Dec; hide Utf8.Encode;
    if s != [] {
      var d, t := Dec(s), v.s[pos..v.end];
      assert Chars(s)[0] == d.c && Chars(s)[1..] == Chars(s[d.n..]);
      DecBytes(s);
      assert t[..|s|] == s;
      DecEncoded(d.c, t);
      forall i | 0 <= i < |Chars(s[d.n..])| ensures Chars(s[d.n..])[i] < BAD { assert Chars(s)[i + 1] < BAD; }
      assert v.s[pos + d.n..pos + d.n + |s[d.n..]|] == v.s[pos..pos + |s|][d.n..];
      BytesSpell(v, s[d.n..], pos + d.n);
    }
  }

  /** Where case matters, a back-reference matches the very bytes of its group; and those of a well-formed group
      wherever they are. */
  lemma ReferBytes(v: Subject, k: Pos, a: St, r: int)
    requires v.Valid() && !v.icase && r >= 0 && a.pos <= v.end && forall i | 0 <= i < |a.caps| :: a.caps[i] <= v.end
    requires 0 <= Get(a.caps, 2 * k) <= Get(a.caps, 2 * k + 1)
    ensures var g := v.s[Get(a.caps, 2 * k)..Get(a.caps, 2 * k + 1)];
            && (Refer(v, k, a) == r ==> a.pos <= r <= v.end && v.s[a.pos..r] == g)
            && (WellFormedText(g) && a.pos <= r <= v.end && v.s[a.pos..r] == g ==> Refer(v, k, a) == r)
  {
    hide Refer; hide Chars; hide WellFormedText;
    var so, eo := Get(a.caps, 2 * k), Get(a.caps, 2 * k + 1);
    var g := v.s[so..eo];
    assert Held(v, so, eo) == g;
    ReferIs(v, k, a, r);
    if Refer(v, k, a) == r {
      var cs :| Spells(v, a.pos, r, cs) && AllAlike(v, Chars(g), cs);
      assert cs == Chars(g);
      SpelledBytes(v, g, a.pos, r);
    }
    if WellFormedText(g) && a.pos <= r <= v.end && v.s[a.pos..r] == g {
      BytesSpell(v, g, a.pos);
      assert Spells(v, a.pos, r, Chars(g)) && AllAlike(v, Chars(g), Chars(g));
    }
  }
}
