/** Counting threads by what they are doing. */
module Threads {
  import opened Basics

  /** How many elements satisfy p. */
  function Count<T>(s: seq<T>, p: T -> bool): nat {
    if s == [] then 0 else Count(s[..|s| - 1], p) + One(p(s[|s| - 1]))
  }

  lemma {:induction false} CountSet<T>(s: seq<T>, i: nat, x: T, p: T -> bool)
    requires i < |s|
    ensures Count(s[i := x], p) + One(p(s[i])) == Count(s, p) + One(p(x))
    decreases |s|
  {
    var n := |s| - 1;
    if i == n {
      assert s[i := x][..n] == s[..n];
    } else {
      CountSet(s[..n], i, x, p);
      assert s[i := x][..n] == s[..n][i := x];
    }
  }

  lemma {:induction false} CountHas<T>(s: seq<T>, i: nat, p: T -> bool)
    requires i < |s| && p(s[i])
    ensures Count(s, p) >= 1
    decreases |s|
  {
    if i < |s| - 1 { CountHas(s[..|s| - 1], i, p); }
  }

  /** At most one element satisfies p: any two that do are the same. */
  lemma {:induction false} CountOne<T>(s: seq<T>, i: nat, j: nat, p: T -> bool)
    requires i < |s| && j < |s| && p(s[i]) && p(s[j]) && Count(s, p) <= 1
    ensures i == j
    decreases |s|
  {
    var n := |s| - 1;
    if i == n && j < n { CountHas(s[..n], j, p); }
    if j == n && i < n { CountHas(s[..n], i, p); }
    if i < n && j < n { CountOne(s[..n], i, j, p); }
  }

  lemma {:induction false} CountSome<T>(s: seq<T>, p: T -> bool) returns (i: nat)
    requires Count(s, p) > 0
    ensures i < |s| && p(s[i])
    decreases |s|
  {
    var n := |s| - 1;
    if p(s[n]) { i := n; } else { i := CountSome(s[..n], p); }
  }

  lemma {:induction false} CountNone<T>(s: seq<T>, p: T -> bool)
    requires forall i | 0 <= i < |s| :: !p(s[i])
    ensures Count(s, p) == 0
    decreases |s|
  {
    if s != [] { CountNone(s[..|s| - 1], p); }
  }

  /** Equal element by element, equal in number. */
  lemma {:induction false} CountSame<T>(s: seq<T>, t: seq<T>, p: T -> bool, q: T -> bool)
    requires |s| == |t| && forall i | 0 <= i < |s| :: p(s[i]) == q(t[i])
    ensures Count(s, p) == Count(t, q)
    decreases |s|
  {
    if s != [] { CountSame(s[..|s| - 1], t[..|t| - 1], p, q); }
  }

  /** The sum of f over the elements. */
  function Sum<T>(s: seq<T>, f: T -> nat): nat {
    if s == [] then 0 else Sum(s[..|s| - 1], f) + f(s[|s| - 1])
  }

  lemma {:induction false} SumSet<T>(s: seq<T>, i: nat, x: T, f: T -> nat)
    requires i < |s|
    ensures Sum(s[i := x], f) + f(s[i]) == Sum(s, f) + f(x)
    decreases |s|
  {
    var n := |s| - 1;
    if i == n {
      assert s[i := x][..n] == s[..n];
    } else {
      SumSet(s[..n], i, x, f);
      assert s[i := x][..n] == s[..n][i := x];
    }
  }

  lemma {:induction false} SumHas<T>(s: seq<T>, i: nat, f: T -> nat)
    requires i < |s|
    ensures Sum(s, f) >= f(s[i])
    decreases |s|
  {
    if i < |s| - 1 { SumHas(s[..|s| - 1], i, f); }
  }

  lemma {:induction false} SumNone<T>(s: seq<T>, f: T -> nat)
    requires forall i | 0 <= i < |s| :: f(s[i]) == 0
    ensures Sum(s, f) == 0
    decreases |s|
  {
    if s != [] { SumNone(s[..|s| - 1], f); }
  }

  lemma {:induction false} SumSame<T>(s: seq<T>, t: seq<T>, f: T -> nat)
    requires |s| == |t| && forall i | 0 <= i < |s| :: f(s[i]) == f(t[i])
    ensures Sum(s, f) == Sum(t, f)
    decreases |s|
  {
    if s != [] { SumSame(s[..|s| - 1], t[..|t| - 1], f); }
  }
}
