/** Natural numbers as limbs, least significant first, in any base. */
module Limbs {
  import opened Powers

  /** The number that limbs stand for. */
  function Val(B: nat, s: seq<nat>): nat {
    if s == [] then 0 else Val(B, s[..|s| - 1]) + s[|s| - 1] * Pow(B, |s| - 1)
  }

  predicate Small(B: nat, s: seq<nat>) { forall i | 0 <= i < |s| :: s[i] < B }

  lemma ValSnoc(B: nat, s: seq<nat>, x: nat)
    ensures Val(B, s + [x]) == Val(B, s) + x * Pow(B, |s|)
  {
    assert (s + [x])[..|s|] == s;
  }

  /** Limbs below the base make a number below base^length. */
  lemma {:induction false} ValBound(B: nat, s: seq<nat>)
    requires Small(B, s) && B > 0
    ensures Val(B, s) < Pow(B, |s|)
    decreases |s|
  {
    if s != [] {
      var n := |s| - 1;
      ValBound(B, s[..n]);
      TopBound(B, Val(B, s[..n]), s[n], Pow(B, n));
    }
  }

  lemma TopBound(B: nat, v: nat, x: nat, g: nat)
    requires v < g && x < B
    ensures v + x * g < B * g
  {
    MulMono(x + 1, B, g, g);
    MulDistr(g, x, 1); MulComm(g, x); MulComm(g, x + 1);
  }

  /** A nonzero top limb puts the number in the range of its length. */
  lemma ValTop(B: nat, s: seq<nat>)
    requires Small(B, s) && B > 0 && s != [] && s[|s| - 1] > 0
    ensures Pow(B, |s| - 1) <= Val(B, s) < Pow(B, |s|)
  {
    ValBound(B, s);
    MulMono(1, s[|s| - 1], Pow(B, |s| - 1), Pow(B, |s| - 1));
  }

  /** Leading zero limbs do not count. */
  lemma ValDropZero(B: nat, s: seq<nat>)
    requires s != [] && s[|s| - 1] == 0
    ensures Val(B, s[..|s| - 1]) == Val(B, s)
  {
  }

  /** Low zero limbs multiply. */
  lemma {:induction false} ValShift(B: nat, s: seq<nat>, w: nat)
    ensures Val(B, Zeros(w) + s) == Val(B, s) * Pow(B, w)
    decreases |s|
  {
    hide Pow;
    if s == [] {
      assert Zeros(w) + s == Zeros(w);
      ValZeros(B, w);
    } else {
      var n := |s| - 1;
      ValShift(B, s[..n], w);
      assert Zeros(w) + s == Zeros(w) + s[..n] + [s[n]];
      ValSnoc(B, Zeros(w) + s[..n], s[n]);
      PowAdd(B, n, w);
      var v, x, p, q := Val(B, s[..n]), s[n], Pow(B, n), Pow(B, w);
      Distribute(v, x, p, q);
    }
  }

  lemma Distribute(v: nat, x: nat, p: nat, q: nat)
    ensures v * q + x * (p * q) == (v + x * p) * q
  {
    MulAssoc(x, p, q);
    MulDistr(q, v, x * p); MulComm(q, v); MulComm(q, x * p); MulComm(q, v + x * p);
  }

  function Zeros(w: nat): (s: seq<nat>)
    ensures |s| == w && forall i | 0 <= i < w :: s[i] == 0
  {
    seq(w, _ => 0)
  }

  lemma {:induction false} ValZeros(B: nat, w: nat)
    ensures Val(B, Zeros(w)) == 0
  {
    if w > 0 {
      assert Zeros(w)[..w - 1] == Zeros(w - 1);
      ValZeros(B, w - 1);
    }
  }

  /** Comparing from the top: equal above i, different at i. */
  lemma ValLess(B: nat, s: seq<nat>, t: seq<nat>, i: nat)
    requires |s| == |t| && Small(B, s) && Small(B, t) && i < |s| && s[i] < t[i] && B > 0
    requires forall j | i < j < |s| :: s[j] == t[j]
    ensures Val(B, s) < Val(B, t)
    decreases |s|
  {
    var n := |s| - 1;
    if i == n {
      ValBound(B, s[..n]);
      MulMono(s[n] + 1, t[n], Pow(B, n), Pow(B, n));
      MulDistr(Pow(B, n), s[n], 1); MulComm(Pow(B, n), s[n]); MulComm(Pow(B, n), s[n] + 1);
    } else {
      ValLess(B, s[..n], t[..n], i);
    }
  }

  /** More limbs, with a nonzero top one, make a larger number. */
  lemma ValLonger(B: nat, s: seq<nat>, t: seq<nat>)
    requires Small(B, s) && Small(B, t) && |s| < |t| && t[|t| - 1] > 0 && B > 0
    ensures Val(B, s) < Val(B, t)
  {
    ValBound(B, s);
    ValTop(B, t);
    PowMono(B, |s|, |t| - 1);
  }

  /** Splitting off the low limbs. */
  lemma {:induction false} ValSplit(B: nat, s: seq<nat>, i: nat)
    requires i <= |s|
    ensures Val(B, s) == Val(B, s[..i]) + Val(B, s[i..]) * Pow(B, i)
    decreases |s|
  {
    assert Val(B, []) == 0;
    hide Pow; hide Val;
    if i == |s| {
      assert s[..i] == s && s[i..] == [];
    } else {
      var n := |s| - 1;
      var low, mid := s[..i], s[i..n];
      ValSplit(B, s[..n], i);
      assert s[..n][..i] == low && s[..n][i..] == mid;
      assert s == s[..n] + [s[n]] && s[i..] == mid + [s[n]];
      ValSnoc(B, s[..n], s[n]);
      ValSnoc(B, mid, s[n]);
      PowAdd(B, n - i, i);
      SplitArith(Val(B, s), Val(B, s[..n]), Val(B, low), Val(B, mid), s[n], Pow(B, n - i), Pow(B, i), Pow(B, n),
          Val(B, s[i..]));
    }
  }

  lemma SplitArith(vs: nat, vn: nat, low: nat, mid: nat, x: nat, p: nat, q: nat, pn: nat, hi: nat)
    requires vs == vn + x * pn && vn == low + mid * q && pn == p * q && hi == mid + x * p
    ensures vs == low + hi * q
  {
    Distribute(mid, x, p, q);
  }

  /** A number at least base^(length-1) has a nonzero top limb. */
  lemma TopNonzero(B: nat, s: seq<nat>)
    requires Small(B, s) && B > 0 && s != [] && Val(B, s) >= Pow(B, |s| - 1)
    ensures s[|s| - 1] > 0
  {
    ValBound(B, s[..|s| - 1]);
  }

  lemma {:induction false} ValNormal(B: nat, s: seq<nat>)
    requires s != [] && s[|s| - 1] > 0 && B > 0
    ensures Val(B, s) >= Pow(B, |s| - 1) > 0
  {
    MulMono(1, s[|s| - 1], Pow(B, |s| - 1), Pow(B, |s| - 1));
  }

  /** One limb of a number. */
  lemma LimbAt(B: nat, s: seq<nat>, i: nat)
    requires Small(B, s) && i < |s| && B > 0
    ensures Pow(B, i) > 0 && Val(B, s) / Pow(B, i) % B == s[i]
  {
    hide Pow; hide Val;
    ValSplit(B, s, i);
    ValBound(B, s[..i]);
    MulComm(Val(B, s[i..]), Pow(B, i));
    DivUnique(Val(B, s), Pow(B, i), Val(B, s[i..]), Val(B, s[..i]));
    LowLimb(B, s[i..]);
  }

  lemma LowLimb(B: nat, s: seq<nat>)
    requires Small(B, s) && s != [] && B > 0
    ensures Val(B, s) % B == s[0]
  {
    ValSplit(B, s, 1);
    assert s[..1] == [s[0]];
    assert Val(B, [s[0]]) == s[0] by { assert [s[0]][..0] == []; }
    MulComm(Val(B, s[1..]), B);
    DivUnique(Val(B, s), B, Val(B, s[1..]), s[0]);
  }

  // ---- multiplying limb by limb ----

  /** r with carry c is m times s, plus a. */
  ghost predicate Multiplied(B: nat, r: seq<nat>, c: nat, s: seq<nat>, m: nat, a: nat) {
    |r| == |s| && Val(B, r) + c * Pow(B, |s|) == m * Val(B, s) + a
  }

  lemma MultipliedStart(B: nat, m: nat, a: nat)
    ensures Multiplied(B, [], a, [], m, a)
  {
  }

  lemma CarryArith(B: nat, v: nat, c: nat, g: nat, old_: nat, limb: nat, m: nat, a: nat, t: nat)
    requires B > 0 && v + c * g == m * old_ + a && t == limb * m + c
    ensures v + t % B * g + t / B * (B * g) == m * (old_ + limb * g) + a
  {
    DivMod(t, B);
    var lo, hi := t % B, t / B;
    calc {
      v + lo * g + hi * (B * g);
      { MulAssoc(hi, B, g); MulComm(hi, B); }
      v + lo * g + B * hi * g;
      { MulDistr(g, lo, B * hi); MulComm(g, lo); MulComm(g, B * hi); MulComm(g, lo + B * hi); }
      v + t * g;
      { MulDistr(g, limb * m, c); MulComm(g, limb * m); MulComm(g, c); MulComm(g, t); }
      v + limb * m * g + c * g;
      m * old_ + a + limb * m * g;
      { MulAssoc(limb, m, g); MulComm(limb, m * g); MulAssoc(m, g, limb); MulComm(g, limb); }
      m * old_ + a + m * (limb * g);
      { MulDistr(m, old_, limb * g); }
      m * (old_ + limb * g) + a;
    }
  }

  lemma MultipliedStep(B: nat, r: seq<nat>, c: nat, s: seq<nat>, m: nat, a: nat, limb: nat, t: nat)
    requires B > 0 && Multiplied(B, r, c, s, m, a) && t == limb * m + c
    ensures Multiplied(B, r + [t % B], t / B, s + [limb], m, a)
  {
    hide Pow; hide Val;
    ValSnoc(B, r, t % B);
    ValSnoc(B, s, limb);
    CarryArith(B, Val(B, r), c, Pow(B, |s|), Val(B, s), limb, m, a, t);
    PowNext(B, |s|);
  }

  // ---- one limb at a time ----

  /** Store limb i of a number whose limbs from i on are still those of s. */
  method Put<T>(d: array<T>, i: nat, x: T, ghost s: seq<T>)
    requires i < |s| <= d.Length && d[i..|s|] == s[i..]
    modifies d
    ensures d[..i + 1] == old(d[..i]) + [x] && d[i + 1..|s|] == s[i + 1..] && s[..i + 1] == s[..i] + [s[i]]
  {
    assert d[i..|s|][1..] == s[i..][1..];
    ghost var high := d[i + 1..|s|];
    d[i] := x;
    assert d[i + 1..|s|] == high;
  }

  /** The same, for limbs that start at j. */
  method PutAt<T>(d: array<T>, j: nat, i: nat, x: T, ghost s: seq<T>)
    requires i < |s| && j + |s| <= d.Length && d[i + j..|s| + j] == s[i..]
    modifies d
    ensures d[..j] == old(d[..j])
    ensures d[j..i + 1 + j] == old(d[j..i + j]) + [x] && d[i + 1 + j..|s| + j] == s[i + 1..]
        && s[..i + 1] == s[..i] + [s[i]]
  {
    assert d[i + j..|s| + j][1..] == s[i..][1..];
    ghost var low, high := d[..j], d[i + 1 + j..|s| + j];
    d[i + j] := x;
    assert d[i + 1 + j..|s| + j] == high && d[..j] == low;
  }
}
