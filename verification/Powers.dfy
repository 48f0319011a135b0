/** Powers of natural numbers and the arithmetic facts the numeric conversions rest on. */
module Powers {
  function Pow(b: nat, k: nat): (r: nat)
    ensures b > 0 ==> r > 0
  {
    if k == 0 then 1 else b * Pow(b, k - 1)
  }

  function Pow2(k: nat): (r: nat)
    ensures r > 0
  {
    Pow(2, k)
  }

  lemma {:induction false} PowAdd(b: nat, j: nat, k: nat)
    ensures Pow(b, j + k) == Pow(b, j) * Pow(b, k)
    decreases j
  {
    if j > 0 {
      PowAdd(b, j - 1, k);
      MulAssoc(b, Pow(b, j - 1), Pow(b, k));
    }
  }

  lemma {:induction false} PowMono(b: nat, j: nat, k: nat)
    requires b > 0 && j <= k
    ensures Pow(b, j) <= Pow(b, k)
    decreases k
  {
    if j < k { PowMono(b, j, k - 1); MulAtLeast(Pow(b, k - 1), b); }
  }

  lemma {:induction false} PowStrict(b: nat, j: nat, k: nat)
    requires b > 1 && j < k
    ensures Pow(b, j) < Pow(b, k)
    decreases k
  {
    PowMono(b, j, k - 1);
    MulAtLeast2(Pow(b, k - 1), b);
  }

  /** (bc)^k = b^k c^k. */
  lemma {:induction false} PowTimes(b: nat, c: nat, k: nat)
    ensures Pow(b * c, k) == Pow(b, k) * Pow(c, k)
    decreases k
  {
    if k > 0 {
      PowTimes(b, c, k - 1);
      var x, y := Pow(b, k - 1), Pow(c, k - 1);
      calc {
        b * c * (x * y);
        { MulAssoc(b, c, x * y); }
        b * (c * (x * y));
        { MulAssoc(c, x, y); MulComm(c, x); MulAssoc(x, c, y); }
        b * (x * (c * y));
        { MulAssoc(b, x, c * y); }
        b * x * (c * y);
      }
    }
  }

  /** (b^j)^k = b^(jk). */
  lemma {:induction false} PowPow(b: nat, j: nat, k: nat)
    ensures j * k >= 0 && Pow(Pow(b, j), k) == Pow(b, j * k)
    decreases k
  {
    if k > 0 {
      PowPow(b, j, k - 1);
      PowAdd(b, j, j * (k - 1));
      assert j * k == j + j * (k - 1);
    } else {
      assert j * k == 0;
    }
  }

  lemma {:induction false} PowBaseMono(b: nat, c: nat, k: nat)
    requires b <= c
    ensures Pow(b, k) <= Pow(c, k)
    decreases k
  {
    if k > 0 {
      PowBaseMono(b, c, k - 1);
      MulMono(b, c, Pow(b, k - 1), Pow(c, k - 1));
    }
  }

  // ---- multiplication and division ----

  lemma PowNext(b: nat, i: nat)
    ensures Pow(b, i + 1) == b * Pow(b, i)
  {
  }

  lemma TwoZero()
    ensures Pow2(0) == 1
  {
  }

  lemma TenZero()
    ensures Pow(10, 0) == 1
  {
  }

  lemma HalfPower(k: nat)
    requires k > 0
    ensures Pow2(k) == 2 * Pow2(k - 1)
  {
  }

  lemma MulComm(a: int, b: int)
    ensures a * b == b * a
  {
  }

  lemma MulAssoc(a: int, b: int, c: int)
    ensures a * b * c == a * (b * c)
  {
  }

  lemma MulDistr(a: int, b: int, c: int)
    ensures a * (b + c) == a * b + a * c && a * (b - c) == a * b - a * c
  {
  }

  lemma MulAtLeast(x: nat, b: nat)
    requires b > 0
    ensures x <= b * x
  {
  }

  lemma MulAtLeast2(x: nat, b: nat)
    requires b > 1 && x > 0
    ensures x < b * x
  {
  }

  lemma MulMono(a: nat, b: nat, x: nat, y: nat)
    requires a <= b && x <= y
    ensures a * x <= b * y
  {
  }

  lemma MulStrict(a: nat, x: nat, y: nat)
    requires a > 0
    ensures x < y <==> a * x < a * y
    ensures x <= y <==> a * x <= a * y
    ensures x == y <==> a * x == a * y
  {
  }

  lemma DivMod(a: nat, b: nat)
    requires b > 0
    ensures a == b * (a / b) + a % b && a % b < b
  {
  }

  /** Quotients are characterised by their remainders. */
  lemma DivUnique(a: nat, b: nat, q: nat, r: nat)
    requires b > 0 && a == b * q + r && r < b
    ensures a / b == q && a % b == r
  {
    DivMod(a, b);
    if a / b > q { MulMono(q + 1, a / b, b, b); MulComm(b, a / b); MulComm(b, q + 1); MulDistr(b, q, 1); assert false; }
    if a / b < q {
      MulMono(a / b + 1, q, b, b);
      MulComm(b, q);
      MulComm(b, a / b + 1);
      MulDistr(b, a / b, 1);
      assert false;
    }
  }

  lemma DivBounds(a: nat, b: nat, q: nat)
    requires b > 0
    ensures a / b >= q <==> a >= b * q
  {
    DivMod(a, b);
    if a / b >= q { MulMono(q, a / b, b, b); MulComm(b, q); MulComm(b, a / b); }
    if a / b < q { MulMono(a / b + 1, q, b, b); MulComm(b, q); MulComm(b, a / b + 1); MulDistr(b, a / b, 1); }
  }

  /** a / (bc) = (a / b) / c. */
  lemma DivDiv(a: nat, b: nat, c: nat)
    requires b > 0 && c > 0
    ensures b * c > 0 && a / (b * c) == a / b / c
    ensures a % (b * c) == b * (a / b % c) + a % b
  {
    var q := a / b;
    DivMod(a, b); DivMod(q, c);
    MulStrict(b, 0, c);
    calc {
      a;
      b * q + a % b;
      b * (c * (q / c) + q % c) + a % b;
      { MulDistr(b, c * (q / c), q % c); MulAssoc(b, c, q / c); }
      b * c * (q / c) + (b * (q % c) + a % b);
    }
    assert b * (q % c) + a % b < b * c by {
      MulMono(q % c + 1, c, b, b);
      MulComm(b, q % c + 1);
      MulComm(b, c);
      MulDistr(b, q % c, 1);
    }
    DivUnique(a, b * c, q / c, b * (q % c) + a % b);
  }

  lemma DivCancel(a: nat, b: nat, c: nat)
    requires b > 0 && c > 0
    ensures c * b > 0 && (c * a) / (c * b) == a / b && (c * a) % (c * b) == c * (a % b)
  {
    DivMod(a, b);
    MulStrict(c, 0, b);
    calc {
      c * a;
      c * (b * (a / b) + a % b);
      { MulDistr(c, b * (a / b), a % b); MulAssoc(c, b, a / b); }
      c * b * (a / b) + c * (a % b);
    }
    MulStrict(c, a % b, b);
    DivUnique(c * a, c * b, a / b, c * (a % b));
  }

  lemma DivAddMultiple(g: nat, a: nat, x: nat)
    requires g > 0
    ensures (g * a + x) / g == a + x / g && (g * a + x) % g == x % g
  {
    DivMod(x, g);
    MulDistr(g, a, x / g);
    DivUnique(g * a + x, g, a + x / g, x % g);
  }

  lemma Pow16(j: nat)
    ensures Pow(16, j) == Pow2(4 * j)
  {
    assert Pow2(4) == 16;
    PowPow(2, 4, j);
  }
}
