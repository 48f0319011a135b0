/** The big integers of src/strtod.c: base 2^32 limbs in a fixed array, changed in place. */
module StrtodBig {
  import opened Powers
  import opened Limbs
  import opened Rounding

  const B32: nat := 0x1_0000_0000
  const U64: nat := 0x1_0000_0000_0000_0000
  const BL := 720

  type Limb = x: int | 0 <= x < B32

  function Num(s: seq<Limb>): nat { Val(B32, s) }

  predicate Normal(s: seq<Limb>) { s != [] ==> s[|s| - 1] != 0 }

  lemma B32IsPow2()
    ensures B32 == Pow2(32)
  {
    assert Pow2(8) == 256;
    PowAdd(2, 8, 8); PowAdd(2, 16, 16);
  }

  // ---- multiply and add ----

  lemma CarrySmall(x: Limb, m: Limb, c: nat)
    requires c < B32
    ensures x * m + c < U64 && (x * m + c) / B32 < B32
  {
    MulMono(0, x, 0, m); MulMono(x, B32 - 1, m, B32 - 1);
    DivBounds(x * m + c, B32, B32);
  }

  /** After the last limb: the carry, if any, becomes a new limb, for which there is room. */
  lemma MultipliedEnd(r: seq<Limb>, c: Limb, s: seq<Limb>, m: nat, a: nat, len: nat)
    requires Multiplied(B32, r, c, s, m, a) && Normal(s) && m > 0 && |s| <= len && m * Num(s) + a < Pow(B32, len)
    ensures c == 0 ==> Normal(r) && Num(r) == m * Num(s) + a
    ensures c != 0 ==> |s| < len && Num(r + [c]) == m * Num(s) + a
  {
    hide Pow; hide Val;
    ValSnoc(B32, r, c);
    if c == 0 {
      if s != [] {
        ValNormal(B32, s);
        MulAtLeast(Num(s), m);
        TopNonzero(B32, r);
      }
    } else {
      MulMono(1, c, Pow(B32, |s|), Pow(B32, |s|));
      if |s| == len { assert false; }
    }
  }

  // ---- shifts ----

  /** Shifting a limb left by s bits and or-ing in the bits carried from below is the same as
      multiplying by 2^s and adding them. */
  lemma ShiftStep(x: nat, g: nat, h: nat, c: nat)
    requires g > 0 && h > 0 && g * h == B32 && c < g
    ensures x * g % B32 + c < B32 && (x * g + c) % B32 == x * g % B32 + c && (x * g + c) / B32 == x * g / B32
    ensures x * g / B32 == x / h
  {
    DivMod(x, h);
    var q, r := x / h, x % h;
    calc {
      x * g;
      (h * q + r) * g;
      { MulDistr(g, h * q, r); MulComm(g, h * q); MulComm(g, r); MulComm(g, h * q + r); }
      h * q * g + r * g;
      { MulComm(h * q, g); MulAssoc(g, h, q); }
      B32 * q + r * g;
    }
    assert r * g + c < B32 by {
      MulMono(r + 1, h, g, g);
      MulDistr(g, r, 1);
      MulComm(g, r);
      MulComm(g, r + 1);
      MulComm(g, h);
    }
    DivUnique(x * g, B32, q, r * g);
    DivUnique(x * g + c, B32, q, r * g + c);
  }

  // ---- subtraction ----

  /** r with borrow -c is s minus t. */
  ghost predicate Subtracted(r: seq<Limb>, c: int, s: seq<Limb>, t: seq<Limb>) {
    |r| == |s| == |t| && Num(r) == Num(s) - Num(t) - c * Pow(B32, |s|)
  }

  lemma BorrowArith(v: nat, c: int, g: nat, x: nat, y: nat, a: nat, b: nat, t: int)
    requires v == x - y - c * g && t == a - b + c
    ensures v + t % B32 * g == x + a * g - (y + b * g) - t / B32 * (B32 * g)
  {
    var lo, hi := t % B32, t / B32;
    assert t == B32 * hi + lo;
    calc {
      lo * g + hi * (B32 * g);
      { assert hi * (B32 * g) == B32 * hi * g; }
      lo * g + B32 * hi * g;
      { assert (lo + B32 * hi) * g == lo * g + B32 * hi * g; }
      t * g;
      { assert (a - b + c) * g == a * g - b * g + c * g; }
      a * g - b * g + c * g;
    }
  }

  lemma SubtractedStep(r: seq<Limb>, c: int, s: seq<Limb>, t: seq<Limb>, a: Limb, b: Limb, x: int)
    requires Subtracted(r, c, s, t) && x == a - b + c
    ensures Subtracted(r + [x % B32], x / B32, s + [a], t + [b])
  {
    hide Pow; hide Val;
    ValSnoc(B32, r, x % B32); ValSnoc(B32, s, a); ValSnoc(B32, t, b);
    BorrowArith(Num(r), c, Pow(B32, |s|), Num(s), Num(t), a, b, x);
    PowNext(B32, |s|);
  }

  lemma SubtractedEnd(r: seq<Limb>, c: int, s: seq<Limb>, t: seq<Limb>)
    requires Subtracted(r, c, s, t) && Num(t) <= Num(s) && -1 <= c <= 0
    ensures c == 0 && Num(r) == Num(s) - Num(t)
  {
    hide Pow; hide Val;
    ValBound(B32, r);
  }

  /** The subtrahend, extended with zero limbs. */
  function Padded(s: seq<Limb>, n: nat): (r: seq<Limb>)
    requires |s| <= n
    ensures |r| == n && forall i | 0 <= i < n :: r[i] == if i < |s| then s[i] else 0
  {
    s + seq(n - |s|, _ => 0)
  }

  lemma {:induction false} PaddedNum(s: seq<Limb>, n: nat)
    requires |s| <= n
    ensures Num(Padded(s, n)) == Num(s)
    decreases n
  {
    if |s| < n {
      PaddedNum(s, n - 1);
      assert Padded(s, n) == Padded(s, n - 1) + [0];
      ValSnoc(B32, Padded(s, n - 1), 0);
    } else {
      assert Padded(s, n) == s;
    }
  }

  // ---- the structure ----

  class Big {
    var n: nat
    const d: array<Limb>

    constructor ()
      ensures Valid() && S() == [] && fresh(d) && d.Length == BL
    {
      d := new Limb[BL](_ => 0);
      n := 0;
    }

    ghost predicate Valid()
      reads this, d
    {
      n <= d.Length && Normal(d[..n])
    }

    /** The limbs in use. */
    ghost function S(): seq<Limb>
      requires n <= d.Length
      reads this, d
    {
      d[..n]
    }

    /** The number. */
    ghost function V(): nat
      requires n <= d.Length
      reads this, d
    {
      Num(d[..n])
    }

    /** `big_small`. */
    method Small(v: Limb)
      requires d.Length > 0
      modifies this, d
      ensures Valid() && V() == v && n <= 1
    {
      n := if v != 0 then 1 else 0;
      d[0] := v;
      if v != 0 {
        assert d[..1] == [] + [d[0]];
        ValSnoc(B32, [], v);
      }
    }

    /** `big_muladd`: times m, plus a. */
    method MulAdd(m: Limb, a: Limb)
      requires Valid() && m > 0 && m * V() + a < Pow(B32, d.Length)
      modifies this, d
      ensures Valid() && V() == m * old(V()) + a
    {
      hide Pow; hide Val; hide Num; hide Multiplied;
      ghost var s := d[..n];
      ghost var k := n;
      var c: nat := a;
      MultipliedStart(B32, m, a);
      assert d[..0] == s[..0] == [];
      for i := 0 to n
        invariant n == k && |s| == k <= d.Length && d[i..k] == s[i..]
        invariant c < B32 && Multiplied(B32, d[..i], c, s[..i], m, a)
      {
        assert d[i] == d[i..k][0] == s[i];
        CarrySmall(d[i], m, c);
        var t: nat := d[i] * m + c;
        MultipliedStep(B32, d[..i], c, s[..i], m, a, d[i], t);
        Put(d, i, t % B32, s);
        c := t / B32;
      }
      assert s[..k] == s;
      MultipliedEnd(d[..n], c, s, m, a, d.Length);
      if c != 0 {
        ghost var low := d[..n];
        d[n] := c;
        n := n + 1;
        assert d[..n] == low + [c];
      }
    }

    /** `big_mulpow10`. */
    method MulPow10(k0: nat)
      requires Valid() && Pow(10, k0) * V() < Pow(B32, d.Length)
      modifies this, d
      ensures Valid() && V() == Pow(10, k0) * old(V())
    {
      hide Pow; hide Val; hide Num; hide Normal;
      var k: nat := k0;
      ghost var v0 := V();
      Pow10Start(v0);
      while k >= 9
        invariant k <= k0 && Valid() && V() == Pow(10, k0 - k) * v0
      {
        Pow10Step(k0 - k, 9, k0, v0, Pow(B32, d.Length));
        MulAdd(1000000000, 0);
        k := k - 9;
      }
      if k != 0 {
        Pow10Step(k0 - k, k, k0, v0, Pow(B32, d.Length));
        MulAdd(SmallPow10(k), 0);
      }
    }

    /** `big_bits`. */
    method Bits() returns (r: nat)
      requires Valid()
      ensures r == BitLen(V())
    {
      r := 0;
      if n != 0 {
        r := 32 * (n - 1) + BitLen(d[n - 1]);
        TopBits(d[..n]);
      } else {
        assert d[..n] == [];
      }
    }

    /** `big_shl`: times 2^k. */
    method Shl(k: nat)
      requires Valid() && Pow2(k) * V() < Pow(B32, d.Length)
      modifies this, d
      ensures Valid() && V() == Pow2(k) * old(V())
    {
      if n == 0 || k == 0 {
        NothingToShift(d[..n], k);
        return;
      }
      hide Pow; hide Val; hide Num;
      var w, s := k / 32, k % 32;
      ghost var v0 := V();
      ShlParts(k, v0, Pow(B32, d.Length));
      if s != 0 { ShlBits(s); }
      if w != 0 { ShlLimbs(w); }
    }

    /** The bits of a shift that stay within a limb. */
    method ShlBits(s: nat)
      requires Valid() && 0 < s < 32 && Pow2(s) * V() < Pow(B32, d.Length)
      modifies this, d
      ensures Valid() && V() == Pow2(s) * old(V())
    {
      hide Pow; hide Val; hide Num; hide Multiplied; hide ShiftLow; hide ShiftHigh;
      ghost var t := d[..n];
      ghost var k := n;
      var g, h := Pow2(s), Pow2(32 - s);
      ShiftFactors(s);
      var c: nat := 0;
      MultipliedStart(B32, g, 0);
      assert d[..0] == t[..0] == [];
      for i := 0 to n
        invariant n == k && |t| == k <= d.Length && d[i..k] == t[i..]
        invariant c < g && Multiplied(B32, d[..i], c, t[..i], g, 0)
      {
        assert d[i] == d[i..k][0] == t[i];
        var x := d[i];
        ShiftedStep(d[..i], c, t[..i], g, h, x);
        Put(d, i, ShiftLow(x, g, c), t);
        c := ShiftHigh(x, h);
      }
      assert t[..k] == t;
      MultipliedEnd(d[..n], c, t, g, 0, d.Length);
      if c != 0 {
        ghost var low := d[..n];
        d[n] := c;
        n := n + 1;
        assert d[..n] == low + [c];
      }
    }

    /** memmove up by w limbs and memset the gap. */
    method Move(w: nat)
      requires n + w <= d.Length
      modifies this, d
      ensures n == old(n) + w && d[..n] == Zeros(w) + old(d[..n])
    {
      forall i | w <= i < w + n { d[i] := d[i - w]; }
      forall i | 0 <= i < w { d[i] := 0; }
      n := n + w;
    }

    /** The whole limbs of a shift. */
    method ShlLimbs(w: nat)
      requires Valid() && n > 0 && Pow(B32, w) * V() < Pow(B32, d.Length)
      modifies this, d
      ensures Valid() && V() == Pow(B32, w) * old(V())
    {
      hide Pow; hide Val;
      ghost var t := d[..n];
      RoomToShift(t, w, d.Length);
      Move(w);
      ValShift(B32, t, w);
      MulComm(Num(t), Pow(B32, w));
    }

    /** `big_cmp`: the sign of this - b. */
    method Cmp(b: Big) returns (r: int)
      requires Valid() && b.Valid()
      ensures -1 <= r <= 1 && (r < 0 <==> V() < b.V()) && (r == 0 <==> V() == b.V())
    {
      hide Val; hide Pow;
      if n != b.n {
        if n < b.n { ValLonger(B32, d[..n], b.d[..b.n]); return -1; }
        ValLonger(B32, b.d[..b.n], d[..n]);
        return 1;
      }
      var i: int := n - 1;
      while i >= 0
        invariant -1 <= i < n && forall j | i < j < n :: d[j] == b.d[j]
      {
        if d[i] != b.d[i] {
          if d[i] < b.d[i] { ValLess(B32, d[..n], b.d[..n], i); return -1; }
          ValLess(B32, b.d[..n], d[..n], i);
          return 1;
        }
        i := i - 1;
      }
      assert d[..n] == b.d[..n];
      r := 0;
    }

    /** `big_sub`: subtract b, which must not be larger. */
    method Sub(b: Big)
      requires Valid() && b.Valid() && b != this && b.d != d && b.V() <= V()
      modifies this, d
      ensures Valid() && V() == old(V()) - b.V() && n <= old(n)
    {
      hide Val; hide Pow; hide Num; hide Subtracted;
      NotLonger(b.d[..b.n], d[..n]);
      ghost var s, k := d[..n], n;
      ghost var t := Padded(b.d[..b.n], n);
      PaddedNum(b.d[..b.n], n);
      var c := 0;
      SubtractedStart();
      assert d[..0] == s[..0] == t[..0] == [];
      for i := 0 to n
        invariant n == k && |s| == k <= d.Length && d[i..k] == s[i..]
        invariant -1 <= c <= 0 && Subtracted(d[..i], c, s[..i], t[..i])
        invariant b.d[..b.n] == old(b.d[..b.n]) && t == Padded(b.d[..b.n], k)
      {
        assert d[i] == d[i..k][0] == s[i];
        var y: Limb := if i < b.n then b.d[i] else 0;
        assert t[i] == y;
        var x: int := d[i] as int - y as int + c;
        SubtractedStep(d[..i], c, s[..i], t[..i], d[i], y, x);
        assert t[..i + 1] == t[..i] + [t[i]];
        Put(d, i, x % B32, s);
        c := x / B32;
      }
      assert s[..k] == s && t[..k] == t;
      SubtractedEnd(d[..n], c, s, t);
      Trim();
    }

    /** Drop zero limbs at the top. */
    method Trim()
      requires n <= d.Length
      modifies this`n
      ensures Valid() && V() == old(V()) && n <= old(n)
    {
      hide Pow;
      while n > 0 && d[n - 1] == 0
        invariant n <= old(n) && V() == old(V())
      {
        assert d[..n][..n - 1] == d[..n - 1];
        ValDropZero(B32, d[..n]);
        n := n - 1;
      }
    }

    /** `big_top`: the top `want` bits and how far they are shifted. */
    method Top(want: nat) returns (r: nat, shift: int)
      requires Valid() && 0 < want <= 128
      ensures shift == BitLen(V()) - want
      ensures r == if shift >= 0 then V() / Pow2(shift) else V() * Pow2(-shift)
    {
      hide Val; hide Pow; hide Num; hide BitLen;
      var nb := Bits();
      shift := nb - want;
      r := 0;
      var bit: int := nb - 1;
      TopStart(d[..n], nb);
      while bit >= 0 && bit >= nb - want
        invariant -1 <= bit < nb && bit >= nb - want - 1
        invariant r == V() / Pow2(bit + 1)
        decreases bit
      {
        var limb, lo := bit / 32, bit / 32 * 32;
        var take := bit - lo + 1;
        var need := want - (nb - 1 - bit);
        LimbExists(d[..n], nb, bit);
        var v: nat := d[limb];
        ghost var off: nat := 0;
        if take > need {
          off := take - need;
          v := v / Pow2(take - need);
          take := need;
        } else {
          NoOffset(v);
        }
        TopStep(d[..n], limb, off, take, r);
        r := r * Pow2(take) + v % Pow2(take);
        bit := bit - take;
      }
      if nb < want { NoOffset(V()); r := r * Pow2(want - nb); }
    }

    /** `big_mul128`: this becomes a times m. */
    method Mul128(a: Big, m: nat)
      requires a.Valid() && a != this && a.d != d && m < Pow(B32, 4) && a.n + 4 <= d.Length
      modifies this, d
      ensures Valid() && V() == a.V() * m
    {
      hide Val; hide Pow; hide Num; hide Product;
      var md := Split128(m);
      n := a.n + |md|;
      forall i | 0 <= i < n { d[i] := 0; }
      ProductStart(a.d[..a.n], d[..a.n]);
      for j := 0 to |md|
        invariant n == a.n + |md| <= d.Length && a.d[..a.n] == old(a.d[..a.n]) && a.n == old(a.n)
        invariant Product(d[..a.n + j], a.d[..a.n], md[..j])
      {
        AddRow(a, md, j);
      }
      assert md[..|md|] == md;
      ProductEnd(d[..n], a.d[..a.n], md);
      Trim();
    }

    /** One more limb of the multiplier. */
    method AddRow(a: Big, md: seq<Limb>, j: nat)
      requires a.n <= a.d.Length && a.d != d && j < |md| && a.n + j < d.Length
          && Product(d[..a.n + j], a.d[..a.n], md[..j])
      modifies d
      ensures Product(d[..a.n + j + 1], a.d[..a.n], md[..j + 1])
    {
      hide Val; hide Pow; hide Num; hide Product; hide Accumulated;
      ghost var r, low, mid := d[..a.n + j], d[..j], d[j..a.n + j];
      assert r[..j] == low && r[j..] == mid;
      ProductLength(r, a.d[..a.n], md[..j]);
      Row(a, md[j], j);
      ghost var r' := d[..a.n + j + 1];
      assert r'[..j] == d[..j] && r'[j..a.n + j] == d[j..a.n + j];
      RowDone(r, r', a.d[..a.n], md[..j], md[j]);
      assert md[..j + 1] == md[..j] + [md[j]];
    }

    /** Add a times x at limb j. */
    method Row(a: Big, x: Limb, j: nat)
      requires a.n <= a.d.Length && a.d != d && a.n + j < d.Length
      modifies d
      ensures d[..j] == old(d[..j])
      ensures Accumulated(d[j..a.n + j], d[a.n + j], a.d[..a.n], x, old(d[j..a.n + j]))
    {
      hide Val; hide Pow; hide Num; hide Accumulated;
      ghost var h, k := d[j..a.n + j], a.n;
      var c: nat := 0;
      AccumulatedStart(x);
      assert d[j..j] == a.d[..0] == h[..0] == [];
      for i := 0 to a.n
        invariant a.n == k && |h| == k && c < B32
        invariant d[..j] == old(d[..j]) && d[i + j..k + j] == h[i..]
        invariant a.d[..k] == old(a.d[..k])
        invariant Accumulated(d[j..i + j], c, a.d[..i], x, h[..i])
      {
        assert d[i + j] == d[i + j..k + j][0] == h[i];
        AccumulateSmall(a.d[i], x, d[i + j], c);
        var t: nat := a.d[i] * x + d[i + j] + c;
        AccumulatedStep(d[j..i + j], c, a.d[..i], x, h[..i], a.d[i], h[i], t);
        assert a.d[..i + 1] == a.d[..i] + [a.d[i]];
        PutAt(d, j, i, t % B32, h);
        c := t / B32;
      }
      assert h[..k] == h;
      ghost var row := d[j..k + j];
      d[a.n + j] := c;
      assert d[j..k + j] == row;
    }
  }

  // ---- the top bits ----

  lemma TopStart(s: seq<Limb>, nb: nat)
    requires nb == BitLen(Num(s))
    ensures Num(s) / Pow2(nb) == 0
  {
    if Num(s) > 0 { BitLenBounds(Num(s)); }
    DivUnique(Num(s), Pow2(nb), 0, Num(s));
  }

  lemma NoOffset(v: nat)
    ensures v / Pow2(0) == v
  {
  }

  lemma LimbExists(s: seq<Limb>, nb: nat, bit: nat)
    requires Normal(s) && nb == BitLen(Num(s)) && bit < nb
    ensures bit / 32 < |s|
  {
    if s != [] {
      TopBits(s);
      BitLenLimb(s[|s| - 1]);
    }
  }

  lemma BitLenLimb(x: Limb)
    ensures BitLen(x) <= 32
  {
    B32IsPow2();
    if x > 0 {
      BitLenBounds(x);
      if BitLen(x) > 32 { PowMono(2, 32, BitLen(x) - 1); assert false; }
    }
  }

  /** The bits of one limb follow the bits above it. */
  lemma TopStep(s: seq<Limb>, limb: nat, off: nat, take: nat, r: nat)
    requires limb < |s| && off + take <= 32 && r == Num(s) / Pow2(32 * limb + off + take)
    ensures Num(s) / Pow2(32 * limb + off) == r * Pow2(take) + s[limb] / Pow2(off) % Pow2(take)
  {
    hide Val; hide Pow;
    LimbAt(B32, s, limb);
    B32Pow(limb);
    B32IsPow2();
    var w := Num(s) / Pow2(32 * limb);
    PowAdd(2, 32 * limb, off); DivDiv(Num(s), Pow2(32 * limb), Pow2(off));
    PowAdd(2, 32 * limb + off, take); DivDiv(Num(s), Pow2(32 * limb + off), Pow2(take));
    DivMod(w / Pow2(off), Pow2(take));
    MulComm(Pow2(take), r);
    LowBits(w, off, take);
  }

  /** Bits off..off+take of w are those of its low 32 bits. */
  lemma LowBits(w: nat, off: nat, take: nat)
    requires off + take <= 32
    ensures w / Pow2(off) % Pow2(take) == w % Pow2(32) / Pow2(off) % Pow2(take)
  {
    hide Pow;
    var g, h, f := Pow2(off), Pow2(take), Pow2(32 - off - take);
    PowAdd(2, off + take, 32 - off - take); PowAdd(2, off, take);
    LowBitsArith(w, g, h, f, Pow2(32));
  }

  lemma LowBitsArith(w: nat, g: nat, h: nat, f: nat, m: nat)
    requires g > 0 && h > 0 && m > 0 && m == g * h * f
    ensures w / g % h == w % m / g % h
  {
    var q, x := w / m, w % m;
    DivMod(w, m);
    FourFactors(g, h, f, q);
    LowBitsSplit(w, g, h, f * q, x);
  }

  lemma FourFactors(g: nat, h: nat, f: nat, q: nat)
    ensures g * h * f * q == g * (h * (f * q))
  {
    MulAssoc(g * h, f, q); MulAssoc(g, h, f * q);
  }

  lemma LowBitsSplit(w: nat, g: nat, h: nat, y: nat, x: nat)
    requires g > 0 && h > 0 && w == g * (h * y) + x
    ensures w / g % h == x / g % h
  {
    DivAddMultiple(g, h * y, x);
    DivAddMultiple(h, y, x / g);
  }

  // ---- multiplication ----

  /** h' with carry c is m times a, plus h. */
  ghost predicate Accumulated(h': seq<Limb>, c: nat, a: seq<Limb>, m: nat, h: seq<Limb>) {
    |h'| == |a| == |h| && Num(h') + c * Pow(B32, |a|) == m * Num(a) + Num(h)
  }

  lemma AccumulatedStart(m: nat)
    ensures Accumulated([], 0, [], m, [])
  {
  }

  lemma AccumulateSmall(x: Limb, m: Limb, y: Limb, c: nat)
    requires c < B32
    ensures x * m + y + c < U64 && (x * m + y + c) / B32 < B32
  {
    MulMono(0, x, 0, m); MulMono(x, B32 - 1, m, B32 - 1);
    DivBounds(x * m + y + c, B32, B32);
  }

  lemma AccumulatedStep(h': seq<Limb>, c: nat, a: seq<Limb>, m: nat, h: seq<Limb>, x: Limb, y: Limb, t: nat)
    requires Accumulated(h', c, a, m, h) && t == x * m + y + c
    ensures Accumulated(h' + [t % B32], t / B32, a + [x], m, h + [y])
  {
    hide Pow; hide Val;
    ValSnoc(B32, h', t % B32); ValSnoc(B32, a, x); ValSnoc(B32, h, y);
    PowNext(B32, |a|);
    var g := Pow(B32, |a|);
    // treat y as part of the incoming carry
    MulDistr(g, c, y); MulComm(g, c); MulComm(g, y); MulComm(g, c + y);
    CarryArith(B32, Num(h'), c + y, g, Num(a), x, m, Num(h) + y * g, t);
  }

  /** r is a times the limbs md. */
  ghost predicate Product(r: seq<Limb>, a: seq<Limb>, md: seq<Limb>) { |r| == |a| + |md| && Num(r) == Num(a) * Num(md) }

  lemma ProductStart(a: seq<Limb>, r: seq<Limb>)
    requires |r| == |a| && forall i | 0 <= i < |r| :: r[i] == 0
    ensures Product(r, a, [])
  {
    assert r == Zeros(|a|);
    ValZeros(B32, |a|);
  }

  lemma ProductLength(r: seq<Limb>, a: seq<Limb>, md: seq<Limb>)
    requires Product(r, a, md)
    ensures |r| == |a| + |md|
  {
  }

  lemma RowDone(r: seq<Limb>, r': seq<Limb>, a: seq<Limb>, md: seq<Limb>, x: Limb)
    requires Product(r, a, md) && |r'| == |r| + 1
    requires var j := |md|; r'[..j] == r[..j] && Accumulated(r'[j..|r|], r'[|r|], a, x, r[j..])
    ensures Product(r', a, md + [x])
  {
    hide Pow; hide Val;
    var j := |md|;
    ValSplit(B32, r, j);
    ValSplit(B32, r', j);
    assert r'[j..] == r'[j..|r|] + [r'[|r|]];
    ValSnoc(B32, r'[j..|r|], r'[|r|]);
    ValSnoc(B32, md, x);
    RowArith(Num(r'[..j]), x, Num(a), Num(r[j..]), Pow(B32, j), Num(md));
  }

  lemma RowArith(low: nat, x: nat, a: nat, hi: nat, g: nat, md: nat)
    requires low + hi * g == a * md
    ensures low + (x * a + hi) * g == a * (md + x * g)
  {
    MulDistr(g, x * a, hi); MulComm(g, x * a); MulComm(g, hi); MulComm(g, x * a + hi);
    MulDistr(a, md, x * g);
    MulComm(x, a); MulAssoc(a, x, g);
  }

  lemma ProductEnd(r: seq<Limb>, a: seq<Limb>, md: seq<Limb>)
    requires Product(r, a, md)
    ensures Num(r) == Num(a) * Num(md)
  {
  }

  /** The limbs of a 128-bit number. */
  method Split128(m0: nat) returns (md: seq<Limb>)
    requires m0 < Pow(B32, 4)
    ensures |md| <= 4 && Num(md) == m0
  {
    hide Val; hide Num; hide Pow;
    md := [];
    var m: nat := m0;
    SplitStart(m0);
    while m != 0
      invariant |md| <= 4 && Remaining(md, m, m0)
      decreases m
    {
      SplitStep(md, m, m0);
      md := md + [m % B32];
      m := m / B32;
    }
    SplitEnd(md, m0);
  }

  ghost predicate Remaining(md: seq<Limb>, m: nat, m0: nat) {
    |md| <= 4 && m < Pow(B32, 4 - |md|) && Num(md) + m * Pow(B32, |md|) == m0
  }

  lemma SplitStart(m0: nat)
    requires m0 < Pow(B32, 4)
    ensures Remaining([], m0, m0)
  {
  }

  lemma SplitStep(md: seq<Limb>, m: nat, m0: nat)
    requires Remaining(md, m, m0) && m != 0
    ensures Remaining(md + [m % B32], m / B32, m0)
  {
    PowNext(B32, 3 - |md|);
    hide Pow; hide Val;
    ValSnoc(B32, md, m % B32);
    PowNext(B32, |md|);
    CarryArith(B32, Num(md), 0, Pow(B32, |md|), 0, m, 1, Num(md), m);
    DivBounds(m, B32, Pow(B32, 3 - |md|));
  }

  lemma SplitEnd(md: seq<Limb>, m0: nat)
    requires Remaining(md, 0, m0)
    ensures Num(md) == m0
  {
  }

  lemma SubtractedStart()
    ensures Subtracted([], 0, [], [])
  {
  }

  lemma NotLonger(s: seq<Limb>, t: seq<Limb>)
    requires Normal(s) && Normal(t) && Num(s) <= Num(t)
    ensures |s| <= |t|
  {
    if |s| > |t| { ValLonger(B32, t, s); }
  }

  function SmallPow10(k: nat): (r: Limb)
    requires k <= 9
    ensures r == Pow(10, k)
  {
    Pow10Table();
    [1, 10, 100, 1000, 10000, 100000, 1000000, 10000000, 100000000, 1000000000][k]
  }

  lemma Pow10Table()
    ensures Pow(10, 0) == 1 && Pow(10, 1) == 10 && Pow(10, 2) == 100 && Pow(10, 3) == 1000 && Pow(10, 4) == 10000
    ensures Pow(10, 5) == 100000 && Pow(10, 6) == 1000000 && Pow(10, 7) == 10000000
    ensures Pow(10, 8) == 100000000 && Pow(10, 9) == 1000000000
  {
  }

  lemma Pow10Start(v: nat)
    ensures Pow(10, 0) * v == v
  {
  }

  lemma Pow10Step(done: nat, k: nat, all: nat, v: nat, limit: nat)
    requires done + k <= all && Pow(10, all) * v < limit && k <= 9
    ensures SmallPow10(k) * (Pow(10, done) * v) + 0 == Pow(10, done + k) * v < limit
  {
    hide Pow; hide SmallPow10;
    PowAdd(10, done, k);
    MulComm(Pow(10, done), Pow(10, k)); MulAssoc(Pow(10, k), Pow(10, done), v);
    PowMono(10, done + k, all);
    MulMono(Pow(10, done + k), Pow(10, all), v, v);
  }

  /** The length of a number is that of its top limb and 32 for each limb below. */
  lemma TopBits(s: seq<Limb>)
    requires s != [] && Normal(s)
    ensures BitLen(Num(s)) == 32 * (|s| - 1) + BitLen(s[|s| - 1])
  {
    hide Pow; hide BitLen;
    var n := |s| - 1;
    var top: nat := s[n];
    ValBound(B32, s[..n]);
    B32Pow(n);
    TopBitsArith(Num(s[..n]), top, n);
  }

  lemma TopBitsArith(v: nat, top: nat, n: nat)
    requires top > 0 && v < Pow2(32 * n)
    ensures BitLen(v + top * Pow2(32 * n)) == 32 * n + BitLen(top)
  {
    var b, g := BitLen(top), Pow2(32 * n);
    BitLenBounds(top);
    hide Pow; hide BitLen;
    PowAdd(2, b - 1, 32 * n); PowAdd(2, b, 32 * n);
    MulMono(Pow2(b - 1), top, g, g);
    TopBound(Pow2(b), v, top, g);
    BitLenIs(v + top * g, 32 * n + b);
  }

  lemma B32Pow(n: nat)
    ensures Pow(B32, n) == Pow2(32 * n)
  {
    B32IsPow2();
    PowPow(2, 32, n);
  }

  lemma NothingToShift(s: seq<Limb>, k: nat)
    requires s == [] || k == 0
    ensures Num(s) == Pow2(k) * Num(s)
  {
  }

  lemma ShlParts(k: nat, v: nat, limit: nat)
    requires Pow2(k) * v < limit
    ensures var w, s := k / 32, k % 32;
            && Pow2(s) * v < limit
            && Pow(B32, w) * (Pow2(s) * v) == Pow2(k) * v
            && (s == 0 ==> Pow2(s) * v == v) && (w == 0 ==> Pow(B32, w) * (Pow2(s) * v) == Pow2(s) * v)
  {
    var w, s := k / 32, k % 32;
    B32Pow(w);
    PowAdd(2, 32 * w, s);
    MulAssoc(Pow2(32 * w), Pow2(s), v);
    MulAtLeast(Pow2(s) * v, Pow2(32 * w));
  }

  lemma ShiftFactors(s: nat)
    requires 0 < s < 32
    ensures Pow2(s) * Pow2(32 - s) == B32 && Pow2(s) < B32
  {
    B32IsPow2();
    PowAdd(2, s, 32 - s);
    PowStrict(2, s, 32);
  }

  /** The two halves of a limb shifted left: what stays, with the bits from below, and what goes on. */
  function ShiftLow(x: Limb, g: nat, c: nat): nat { x * g % B32 + c }

  function ShiftHigh(x: Limb, h: nat): nat
    requires h > 0
  {
    x / h
  }

  lemma ShiftedStep(r: seq<Limb>, c: nat, t: seq<Limb>, g: nat, h: nat, x: Limb)
    requires Multiplied(B32, r, c, t, g, 0) && g > 0 && h > 0 && g * h == B32 && c < g
    ensures ShiftLow(x, g, c) < B32 && ShiftHigh(x, h) < g
        && Multiplied(B32, r + [ShiftLow(x, g, c)], ShiftHigh(x, h), t + [x], g, 0)
  {
    hide Multiplied;
    ShiftStep(x, g, h, c);
    MultipliedStep(B32, r, c, t, g, 0, x, x * g + c);
    CarryBits(x, g, h);
  }

  lemma CarryBits(x: Limb, g: nat, h: nat)
    requires g * h == B32 && h > 0
    ensures x / h < g
  {
    MulComm(g, h);
    DivBounds(x, h, g);
  }

  lemma RoomToShift(s: seq<Limb>, w: nat, len: nat)
    requires s != [] && Normal(s) && Pow(B32, w) * Num(s) < Pow(B32, len)
    ensures |s| + w <= len
  {
    hide Val; hide Pow;
    ValNormal(B32, s);
    PowAdd(B32, w, |s| - 1);
    MulMono(Pow(B32, w), Pow(B32, w), Pow(B32, |s| - 1), Num(s));
    if len <= w + |s| - 1 { PowMono(B32, len, w + |s| - 1); assert false; }
  }
}
