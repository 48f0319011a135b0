/** `qsort_r` of src/qsort.c: introsort in place, for any comparison that is a total preorder. */
module Qsort {
  import opened Powers
  import opened Ordering
  import opened Rounding

  // ---- rearrangements of a stretch ----

  predicate SameOutside(s: seq<int>, t: seq<int>, lo: nat, hi: nat) {
    |s| == |t| && lo <= hi <= |s| && s[..lo] == t[..lo] && s[hi..] == t[hi..]
  }

  /** t is s with the elements from lo up to hi rearranged. */
  predicate Rearranged(s: seq<int>, t: seq<int>, lo: nat, hi: nat) {
    SameOutside(s, t, lo, hi) && multiset(s[lo..hi]) == multiset(t[lo..hi])
  }

  lemma RearrangedTrans(s: seq<int>, t: seq<int>, u: seq<int>, lo: nat, hi: nat)
    requires Rearranged(s, t, lo, hi) && Rearranged(t, u, lo, hi)
    ensures Rearranged(s, u, lo, hi)
  {
  }

  /** Rearranging a part is rearranging the whole. */
  lemma RearrangedWider(s: seq<int>, t: seq<int>, lo: nat, hi: nat, a: nat, b: nat)
    requires Rearranged(s, t, a, b) && lo <= a && b <= hi <= |s|
    ensures Rearranged(s, t, lo, hi)
  {
    assert s[..lo] == s[..a][..lo] && t[..lo] == t[..a][..lo];
    assert s[hi..] == s[b..][hi - b..] && t[hi..] == t[b..][hi - b..];
    assert s[lo..a] == s[..a][lo..] && t[lo..a] == t[..a][lo..];
    assert s[b..hi] == s[b..][..hi - b] && t[b..hi] == t[b..][..hi - b];
    assert s[lo..hi] == s[lo..a] + s[a..b] + s[b..hi];
    assert t[lo..hi] == t[lo..a] + t[a..b] + t[b..hi];
  }

  function Swapped(s: seq<int>, i: nat, j: nat): seq<int>
    requires i < |s| && j < |s|
  {
    s[i := s[j]][j := s[i]]
  }

  lemma SwappedRearranges(s: seq<int>, i: nat, j: nat, lo: nat, hi: nat)
    requires lo <= i < hi <= |s| && lo <= j < hi
    ensures Rearranged(s, Swapped(s, i, j), lo, hi)
  {
    var t := Swapped(s, i, j);
    var p := s[lo..hi];
    assert t[lo..hi] == Swapped(p, i - lo, j - lo);
    SwapMultiset(p, i - lo, j - lo);
  }

  lemma SwapMultiset(p: seq<int>, i: nat, j: nat)
    requires i < |p| && j < |p|
    ensures multiset(Swapped(p, i, j)) == multiset(p)
  {
  }

  /** An element of a rearranged stretch was in it before. */
  lemma WasThere(s: seq<int>, t: seq<int>, lo: nat, hi: nat, k: nat) returns (j: nat)
    requires Rearranged(s, t, lo, hi) && lo <= k < hi
    ensures lo <= j < hi && s[j] == t[k]
  {
    assert t[k] == t[lo..hi][k - lo];
    assert t[k] in multiset(t[lo..hi]);
    assert t[k] in s[lo..hi];
    var i :| 0 <= i < hi - lo && s[lo..hi][i] == t[k];
    j := lo + i;
  }

  // ---- order ----

  ghost predicate Sorted(cmp: Compare, s: seq<int>, lo: nat, hi: nat) {
    hi <= |s| && forall i, j | lo <= i < j < hi :: cmp(s[i], s[j]) <= 0
  }

  /** Everything from a to b is at most everything from b to c. */
  ghost predicate Split(cmp: Compare, s: seq<int>, a: nat, b: nat, c: nat) {
    c <= |s| && forall i, j | a <= i < b <= j < c :: cmp(s[i], s[j]) <= 0
  }

  ghost predicate AtMost(cmp: Compare, s: seq<int>, lo: nat, hi: nat, x: int) {
    hi <= |s| && forall i | lo <= i < hi :: cmp(s[i], x) <= 0
  }

  ghost predicate AtLeast(cmp: Compare, s: seq<int>, lo: nat, hi: nat, x: int) {
    hi <= |s| && forall i | lo <= i < hi :: cmp(x, s[i]) <= 0
  }

  lemma Reflexive(cmp: Compare, x: int)
    requires Preorder(cmp)
    ensures cmp(x, x) == 0
  {
  }

  lemma Trans(cmp: Compare, x: int, y: int, z: int)
    requires Preorder(cmp) && cmp(x, y) <= 0 && cmp(y, z) <= 0
    ensures cmp(x, z) <= 0
  {
  }

  lemma SplitKept(cmp: Compare, s: seq<int>, t: seq<int>, a: nat, b: nat, c: nat, lo: nat, hi: nat)
    requires Split(cmp, s, a, b, c) && Rearranged(s, t, lo, hi) && ((a <= lo && hi <= b) || (b <= lo && hi <= c))
        && a <= b
    ensures Split(cmp, t, a, b, c)
  {
    forall i, j | a <= i < b <= j < c ensures cmp(t[i], t[j]) <= 0 {
      var i' := Origin(s, t, lo, hi, i);
      var j' := Origin(s, t, lo, hi, j);
    }
  }

  /** Where an element was before a rearrangement: outside the stretch, where it is. */
  lemma Origin(s: seq<int>, t: seq<int>, lo: nat, hi: nat, k: nat) returns (j: nat)
    requires Rearranged(s, t, lo, hi) && k < |t|
    ensures j < |s| && s[j] == t[k] && (if lo <= k < hi then lo <= j < hi else j == k)
  {
    if lo <= k < hi {
      j := WasThere(s, t, lo, hi, k);
    } else {
      j := k;
      if k < lo { assert t[k] == t[..lo][k] == s[..lo][k]; } else { assert t[k] == t[hi..][k - hi] == s[hi..][k - hi]; }
    }
  }

  lemma SortedKept(cmp: Compare, s: seq<int>, t: seq<int>, a: nat, b: nat, lo: nat, hi: nat)
    requires Sorted(cmp, s, a, b) && Rearranged(s, t, lo, hi) && (b <= lo || hi <= a)
    ensures Sorted(cmp, t, a, b)
  {
    forall i, j | a <= i < j < b ensures cmp(t[i], t[j]) <= 0 {
      var i' := Origin(s, t, lo, hi, i);
      var j' := Origin(s, t, lo, hi, j);
    }
  }

  // ---- swap and insertion sort ----

  method Swap(a: array<int>, i: nat, j: nat)
    requires i < a.Length && j < a.Length
    modifies a
    ensures a[..] == Swapped(old(a[..]), i, j)
  {
    a[i], a[j] := a[j], a[i];
  }

  /** Sorted but for the element at j, which may have to go further down. */
  ghost predicate AlmostSorted(cmp: Compare, s: seq<int>, lo: nat, hi: nat, j: nat) {
    hi <= |s| && forall x, y | lo <= x < y < hi && y != j :: cmp(s[x], s[y]) <= 0
  }

  /** Short runs. Here and below, calls counts the calls of the comparison. */
  method Insertion(a: array<int>, base: nat, n: nat, cmp: Compare) returns (ghost calls: nat)
    requires base + n <= a.Length && Preorder(cmp)
    modifies a
    ensures Rearranged(old(a[..]), a[..], base, base + n) && Sorted(cmp, a[..], base, base + n)
    ensures 2 * calls <= n * n
  {
    hide Rearranged; hide Preorder; hide Sorted; hide AlmostSorted; hide Swapped;
    calls := 0;
    ghost var s := a[..];
    RearrangedSelf(s, base, base + n);
    FewSorted(cmp, s, base, n);
    var i := 1;
    while i < n
      invariant 1 <= i && (i <= n || n == 0) && Rearranged(s, a[..], base, base + n)
      invariant i <= n ==> Sorted(cmp, a[..], base, base + i)
      invariant n == 0 ==> Sorted(cmp, a[..], base, base)
      invariant i <= n ==> 2 * calls <= i * i
      invariant n == 0 ==> calls == 0
    {
      ghost var t := a[..];
      ghost var one := InsertOne(a, base, i, cmp);
      calls := calls + one;
      assert (i + 1) * (i + 1) == i * i + 2 * i + 1;
      RearrangedWider(t, a[..], base, base + n, base, base + i + 1);
      RearrangedTrans(s, t, a[..], base, base + n);
      i := i + 1;
    }
  }

  /** The inner loop: element i sinks to its place among the sorted ones before it. */
  method InsertOne(a: array<int>, base: nat, i: nat, cmp: Compare) returns (ghost calls: nat)
    requires base + i < a.Length && Preorder(cmp) && Sorted(cmp, a[..], base, base + i)
    modifies a
    ensures Rearranged(old(a[..]), a[..], base, base + i + 1) && Sorted(cmp, a[..], base, base + i + 1)
    ensures calls <= i
  {
    hide Rearranged; hide Preorder; hide Sorted; hide AlmostSorted; hide Swapped;
    ghost var s := a[..];
    RearrangedSelf(s, base, base + i + 1);
    SortedAlmost(cmp, s, base, base + i);
    var j: nat, end: nat := base + i, base + i + 1;
    ghost var t := s;
    calls := 0;
    while j > base && cmp(a[j - 1], a[j]) > 0
      invariant calls == base + i - j
      invariant base <= j < end && t == a[..] && Rearranged(s, t, base, end) && AlmostSorted(cmp, t, base, end, j)
    {
      assert t[j - 1] == a[j - 1] && t[j] == a[j];
      SwapDown(cmp, t, base, end, j);
      SwappedRearranges(t, j - 1, j, base, end);
      RearrangedTrans(s, t, Swapped(t, j - 1, j), base, end);
      Swap(a, j - 1, j);
      t := a[..];
      j := j - 1;
      calls := calls + 1;
    }
    if j > base { calls := calls + 1; }
    assert j > base ==> t[j - 1] == a[j - 1] && t[j] == a[j];
    AlmostDone(cmp, t, base, end, j);
  }

  lemma FewSorted(cmp: Compare, s: seq<int>, base: nat, n: nat)
    requires base + n <= |s|
    ensures Sorted(cmp, s, base, base) && (n > 0 ==> Sorted(cmp, s, base, base + 1))
  {
  }

  lemma RearrangedSelf(s: seq<int>, lo: nat, hi: nat)
    requires lo <= hi <= |s|
    ensures Rearranged(s, s, lo, hi)
  {
  }

  lemma SortedAlmost(cmp: Compare, s: seq<int>, lo: nat, hi: nat)
    requires Sorted(cmp, s, lo, hi) && hi < |s|
    ensures AlmostSorted(cmp, s, lo, hi + 1, hi)
  {
  }

  /** The element at j and the greater one before it change places. */
  lemma SwapDown(cmp: Compare, s: seq<int>, lo: nat, hi: nat, j: nat)
    requires Preorder(cmp) && AlmostSorted(cmp, s, lo, hi, j) && lo < j < hi && cmp(s[j - 1], s[j]) > 0
    ensures AlmostSorted(cmp, Swapped(s, j - 1, j), lo, hi, j - 1)
  {
    var t := Swapped(s, j - 1, j);
    MoreIsLess(cmp, s[j - 1], s[j]);
    forall x, y | lo <= x < y < hi && y != j - 1 ensures cmp(t[x], t[y]) <= 0 {
      if y == j && x < j - 1 { assert cmp(s[x], s[j - 1]) <= 0; }
    }
  }

  lemma AlmostDone(cmp: Compare, s: seq<int>, lo: nat, hi: nat, j: nat)
    requires Preorder(cmp) && AlmostSorted(cmp, s, lo, hi, j) && lo <= j < hi && (j == lo || cmp(s[j - 1], s[j]) <= 0)
    ensures Sorted(cmp, s, lo, hi)
  {
    forall x, y | lo <= x < y < hi ensures cmp(s[x], s[y]) <= 0 {
      if y == j && x < j - 1 { Trans(cmp, s[x], s[j - 1], s[j]); }
    }
  }

  // ---- heap sort ----

  /** Element c, counted from base. */
  function Elt(s: seq<int>, base: nat, c: int): int
    requires 0 <= c && base + c < |s|
  {
    s[base + c]
  }

  function Parent(c: int): int { (c - 1) / 2 }

  /** Every element from lo on is at least its children; positions count from base. */
  ghost predicate Heap(cmp: Compare, s: seq<int>, base: nat, lo: nat, n: nat) {
    base + n <= |s| && forall c | 0 < c < n && Parent(c) >= lo :: cmp(Elt(s, base, Parent(c)), Elt(s, base, c)) >= 0
  }

  /** The same, but the element at root may be less than its children; its parent is at least them. */
  ghost predicate HeapBut(cmp: Compare, s: seq<int>, base: nat, lo: nat, n: nat, root: nat) {
    && base + n <= |s|
    && (forall c | 0 < c < n && Parent(c) >= lo
        && Parent(c) != root :: cmp(Elt(s, base, Parent(c)), Elt(s, base, c)) >= 0)
    && (root > 0 && Parent(root) >= lo ==>
          forall c | 0 < c < n && Parent(c) == root :: cmp(Elt(s, base, Parent(root)), Elt(s, base, c)) >= 0)
  }

  lemma GreaterTrans(cmp: Compare, x: int, y: int, z: int)
    requires Preorder(cmp) && cmp(x, y) >= 0 && cmp(y, z) >= 0
    ensures cmp(x, z) >= 0
  {
    assert cmp(z, y) <= 0 && cmp(y, x) <= 0;
  }

  /** Swapping the root with its greater child moves the trouble down. */
  lemma SiftStep(cmp: Compare, s: seq<int>, base: nat, lo: nat, n: nat, root: nat, child: nat)
    requires Preorder(cmp) && HeapBut(cmp, s, base, lo, n, root) && lo <= root && root < child < n
        && Parent(child) == root
    requires cmp(Elt(s, base, root), Elt(s, base, child)) < 0
    requires forall c | 0 < c < n && Parent(c) == root :: cmp(Elt(s, base, child), Elt(s, base, c)) >= 0
    ensures HeapBut(cmp, Swapped(s, base + root, base + child), base, lo, n, child)
  {
    hide Preorder;
    var t := Swapped(s, base + root, base + child);
    MoreIsLess(cmp, Elt(s, base, child), Elt(s, base, root));
    forall c | 0 < c < n && Parent(c) >= lo
        && Parent(c) != child ensures cmp(Elt(t, base, Parent(c)), Elt(t, base, c)) >= 0 {
      SiftPair(cmp, s, base, lo, n, root, child, c);
    }
    forall c | 0 < c < n && Parent(c) == child ensures cmp(Elt(t, base, root), Elt(t, base, c)) >= 0 {
      assert cmp(Elt(s, base, Parent(c)), Elt(s, base, c)) >= 0;
    }
  }

  /** Any other pair of parent and child is in order after the swap. */
  lemma SiftPair(cmp: Compare, s: seq<int>, base: nat, lo: nat, n: nat, root: nat, child: nat, c: nat)
    requires HeapBut(cmp, s, base, lo, n, root) && lo <= root && root < child < n && Parent(child) == root
    requires cmp(Elt(s, base, child), Elt(s, base, root)) > 0
    requires forall d | 0 < d < n && Parent(d) == root :: cmp(Elt(s, base, child), Elt(s, base, d)) >= 0
    requires 0 < c < n && Parent(c) >= lo && Parent(c) != child
    ensures var t := Swapped(s, base + root, base + child); cmp(Elt(t, base, Parent(c)), Elt(t, base, c)) >= 0
  {
    if c == root {
      assert cmp(Elt(s, base, Parent(root)), Elt(s, base, child)) >= 0;
    } else if Parent(c) != root {
      assert cmp(Elt(s, base, Parent(c)), Elt(s, base, c)) >= 0;
    }
  }

  lemma SiftDone(cmp: Compare, s: seq<int>, base: nat, lo: nat, n: nat, root: nat)
    requires HeapBut(cmp, s, base, lo, n, root)
    requires forall c | 0 < c < n && Parent(c) == root :: cmp(Elt(s, base, root), Elt(s, base, c)) >= 0
    ensures Heap(cmp, s, base, lo, n)
  {
  }

  method Sift(a: array<int>, base: nat, root0: nat, n: nat, cmp: Compare) returns (ghost calls: nat)
    requires base + n <= a.Length && root0 < n && Preorder(cmp) && HeapBut(cmp, a[..], base, root0, n, root0)
    modifies a
    ensures Rearranged(old(a[..]), a[..], base, base + n) && Heap(cmp, a[..], base, root0, n)
    ensures calls <= 2 * BitLen(n)
  {
    hide Rearranged; hide Preorder; hide Swapped; hide HeapBut; hide Heap; hide Pow; hide BitLen;
    ghost var s := a[..];
    RearrangedSelf(s, base, base + n);
    var root := root0;
    ghost var t, level: nat := s, 0;
    calls := 0;
    TwoZero();
    while true
      invariant calls <= 2 * level && Pow2(level) <= root + 1
      invariant root0 <= root < n && t == a[..] && Rearranged(s, t, base, base + n)
          && HeapBut(cmp, t, base, root0, n, root)
      decreases n - root
    {
      LevelBound(level, root, n);
      ghost var looked;
      var child;
      child, looked := Larger(a, base, root, n, cmp);
      if child >= n {
        SiftDone(cmp, t, base, root0, n, root);
        return;
      }
      calls := calls + looked + 1;
      var r, c := base + root, base + child;
      assert t[r] == a[r] && t[c] == a[c];
      if cmp(a[r], a[c]) >= 0 {
        AboveChildren(cmp, t, base, n, root, child);
        SiftDone(cmp, t, base, root0, n, root);
        return;
      }
      SiftStep(cmp, t, base, root0, n, root, child);
      SwappedRearranges(t, r, c, base, base + n);
      RearrangedTrans(s, t, Swapped(t, r, c), base, base + n);
      Swap(a, r, c);
      t := a[..];
      root := child;
      HalfPower(level + 1);
      level := level + 1;
    }
  }

  /** A place at some level of a heap needs as many elements as a power of two. */
  lemma LevelBound(level: nat, root: nat, n: nat)
    requires Pow2(level) <= root + 1 <= n
    ensures level + 1 <= BitLen(n)
  {
    hide Pow; hide BitLen;
    BitLenBounds(n);
    if BitLen(n) <= level { PowMono(2, BitLen(n), level); }
  }

  /** The greater child, or a place past the end if there is none. */
  method Larger(a: array<int>, base: nat, root: nat, n: nat, cmp: Compare) returns (child: nat, ghost calls: nat)
    requires base + n <= a.Length && root < n && Preorder(cmp)
    ensures child >= n ==> forall c | 0 < c < n :: Parent(c) != root
    ensures child < n ==> Parent(child) == root && 2 * root < child
    ensures calls <= 1 && (child >= n ==> calls == 0)
    ensures child < n ==>
        forall c | 0 < c < n && Parent(c) == root :: cmp(Elt(a[..], base, child), Elt(a[..], base, c)) >= 0
  {
    hide Preorder;
    child, calls := 2 * root + 1, 0;
    if child >= n { return; }
    if child + 1 < n { calls := 1; }
    if child + 1 < n && cmp(a[base + child], a[base + child + 1]) < 0 { child := child + 1; }
    GreaterChild(cmp, a[..], base, n, root, child);
  }

  lemma GreaterChild(cmp: Compare, s: seq<int>, base: nat, n: nat, root: nat, child: nat)
    requires Preorder(cmp) && base + n <= |s| && root < n && child < n
    requires var c := 2 * root + 1;
             c < n && child == if c + 1 < n && cmp(Elt(s, base, c), Elt(s, base, c + 1)) < 0 then c + 1 else c
    ensures Parent(child) == root && root < child
    ensures forall c | 0 < c < n && Parent(c) == root :: cmp(Elt(s, base, child), Elt(s, base, c)) >= 0
  {
    Reflexive(cmp, Elt(s, base, child));
    forall c | 0 < c < n && Parent(c) == root ensures cmp(Elt(s, base, child), Elt(s, base, c)) >= 0 {
      assert c == 2 * root + 1 || c == 2 * root + 2;
      MoreIsLess(cmp, Elt(s, base, child), Elt(s, base, c));
    }
  }

  lemma AboveChildren(cmp: Compare, s: seq<int>, base: nat, n: nat, root: nat, child: nat)
    requires Preorder(cmp) && base + n <= |s| && root < n && child < n
        && cmp(Elt(s, base, root), Elt(s, base, child)) >= 0
    requires forall c | 0 < c < n && Parent(c) == root :: cmp(Elt(s, base, child), Elt(s, base, c)) >= 0
    ensures forall c | 0 < c < n && Parent(c) == root :: cmp(Elt(s, base, root), Elt(s, base, c)) >= 0
  {
    forall c | 0 < c < n && Parent(c) == root ensures cmp(Elt(s, base, root), Elt(s, base, c)) >= 0 {
      GreaterTrans(cmp, Elt(s, base, root), Elt(s, base, child), Elt(s, base, c));
    }
  }

  /** The root of a heap is a greatest element. */
  lemma {:induction false} RootGreatest(cmp: Compare, s: seq<int>, base: nat, n: nat, c: nat)
    requires Preorder(cmp) && Heap(cmp, s, base, 0, n) && c < n
    ensures cmp(Elt(s, base, c), Elt(s, base, 0)) <= 0
    decreases c
  {
    if c == 0 {
      Reflexive(cmp, Elt(s, base, 0));
    } else {
      RootGreatest(cmp, s, base, n, Parent(c));
      MoreIsLess(cmp, Elt(s, base, Parent(c)), Elt(s, base, c));
      Trans(cmp, Elt(s, base, c), Elt(s, base, Parent(c)), Elt(s, base, 0));
    }
  }

  /** The greatest elements are sorted at the end, the rest is a heap. */
  ghost predicate TailSorted(cmp: Compare, s: seq<int>, base: nat, end: nat, n: nat) {
    Sorted(cmp, s, base + end, base + n) && Split(cmp, s, base, base + end, base + n)
  }

  method Heapsort(a: array<int>, base: nat, n: nat, cmp: Compare) returns (ghost calls: nat)
    requires base + n <= a.Length && n > 0 && Preorder(cmp)
    modifies a
    ensures Rearranged(old(a[..]), a[..], base, base + n) && Sorted(cmp, a[..], base, base + n)
    ensures calls <= n * (3 * BitLen(n))
  {
    hide Rearranged; hide Preorder; hide Heap; hide Sorted; hide BitLen;
    ghost var s := a[..];
    calls := MakeHeap(a, base, n, cmp);
    ghost var t := a[..];
    ghost var more := TakeHeap(a, base, n, cmp);
    RearrangedTrans(s, t, a[..], base, base + n);
    HeapTotal(n, 2 * BitLen(n), BitLen(n));
    calls := calls + more;
  }

  /** The first loop: a heap from the leaves up. */
  method MakeHeap(a: array<int>, base: nat, n: nat, cmp: Compare) returns (ghost calls: nat)
    requires base + n <= a.Length && n > 0 && Preorder(cmp)
    modifies a
    ensures Rearranged(old(a[..]), a[..], base, base + n) && Heap(cmp, a[..], base, 0, n)
    ensures calls <= n / 2 * (2 * BitLen(n))
  {
    hide Rearranged; hide Preorder; hide HeapBut; hide Heap; hide BitLen;
    ghost var s, each := a[..], 2 * BitLen(n);
    RearrangedSelf(s, base, base + n);
    LeavesHeap(cmp, s, base, n);
    calls := 0;
    var i := n / 2;
    while i > 0
      invariant 0 <= i <= n / 2 && Rearranged(s, a[..], base, base + n) && Heap(cmp, a[..], base, i, n)
      invariant calls <= (n / 2 - i) * each
    {
      i := i - 1;
      ghost var u := a[..];
      HeapGrows(cmp, u, base, i, n);
      ghost var one := Sift(a, base, i, n, cmp);
      calls := AddRound(calls, one, n / 2 - i - 1, each);
      RearrangedTrans(s, u, a[..], base, base + n);
    }
  }

  /** The second loop: the greatest of the heap goes to its end, again and again. */
  method TakeHeap(a: array<int>, base: nat, n: nat, cmp: Compare) returns (ghost calls: nat)
    requires base + n <= a.Length && n > 0 && Preorder(cmp) && Heap(cmp, a[..], base, 0, n)
    modifies a
    ensures Rearranged(old(a[..]), a[..], base, base + n) && Sorted(cmp, a[..], base, base + n)
    ensures calls <= (n - 1) * (2 * BitLen(n))
  {
    hide Rearranged; hide Preorder; hide Swapped; hide HeapBut; hide Heap; hide Sorted; hide Split; hide TailSorted;
    hide BitLen;
    ghost var s, each := a[..], 2 * BitLen(n);
    RearrangedSelf(s, base, base + n);
    calls := 0;
    var end := n;
    ghost var t := s;
    NothingSorted(cmp, t, base, n);
    while end > 1
      invariant 1 <= end <= n && t == a[..] && Rearranged(s, t, base, base + n) && Heap(cmp, t, base, 0, end)
          && TailSorted(cmp, t, base, end, n)
      invariant calls <= (n - end) * each
    {
      end := end - 1;
      ghost var one := TakeOne(a, base, end, n, cmp);
      BitLenMono(end, n);
      calls := AddRound(calls, one, n - end - 1, each);
      RearrangedTrans(s, t, a[..], base, base + n);
      t := a[..];
    }
    TailAll(cmp, t, base, n);
  }

  method TakeOne(a: array<int>, base: nat, end: nat, n: nat, cmp: Compare) returns (ghost calls: nat)
    requires 0 < end < n && base + n <= a.Length && Preorder(cmp) && Heap(cmp, a[..], base, 0, end + 1)
        && TailSorted(cmp, a[..], base, end + 1, n)
    modifies a
    ensures Rearranged(old(a[..]), a[..], base, base + n) && Heap(cmp, a[..], base, 0, end)
        && TailSorted(cmp, a[..], base, end, n)
    ensures calls <= 2 * BitLen(end)
  {
    hide Rearranged; hide Preorder; hide Swapped; hide HeapBut; hide Heap; hide Sorted; hide Split; hide TailSorted;
    hide BitLen;
    ghost var t := a[..];
    RootToEnd(cmp, t, base, end, n);
    SwappedRearranges(t, base, base + end, base, base + n);
    Swap(a, base, base + end);
    ghost var u := a[..];
    calls := Sift(a, base, 0, end, cmp);
    TailKept(cmp, u, a[..], base, end, n);
    RearrangedWider(u, a[..], base, base + n, base, base + end);
    RearrangedTrans(t, u, a[..], base, base + n);
  }

  /** One more round. */
  ghost function AddRound(calls: nat, one: nat, rounds: nat, each: nat): (r: nat)
    requires calls <= rounds * each && one <= each
    ensures r == calls + one && r <= (rounds + 1) * each
  {
    MulDistr(each, rounds, 1); MulComm(each, rounds); MulComm(each, rounds + 1);
    calls + one
  }

  lemma HeapTotal(n: nat, each: nat, b: nat)
    requires n > 0 && each == 2 * b
    ensures n / 2 * each + (n - 1) * each <= n * (3 * b)
  {
    var k := n / 2 + n - 1;
    MulDistr(each, n / 2, n - 1); MulComm(each, n / 2); MulComm(each, n - 1); MulComm(each, k);
    MulMono(2 * k, 3 * n, b, b);
    MulAssoc(k, 2, b); MulComm(k, 2); MulAssoc(n, 3, b); MulComm(n, 3);
  }

  lemma {:induction false} BitLenMono(m: nat, n: nat)
    requires m <= n
    ensures BitLen(m) <= BitLen(n)
  {
    if m > 0 { BitLenMono(m / 2, n / 2); }
  }

  lemma LeavesHeap(cmp: Compare, s: seq<int>, base: nat, n: nat)
    requires base + n <= |s|
    ensures Heap(cmp, s, base, n / 2, n)
  {
  }

  lemma HeapGrows(cmp: Compare, s: seq<int>, base: nat, i: nat, n: nat)
    requires Heap(cmp, s, base, i + 1, n)
    ensures HeapBut(cmp, s, base, i, n, i)
  {
  }

  lemma NothingSorted(cmp: Compare, s: seq<int>, base: nat, n: nat)
    requires base + n <= |s|
    ensures TailSorted(cmp, s, base, n, n)
  {
  }

  lemma RootToEnd(cmp: Compare, s: seq<int>, base: nat, end: nat, n: nat)
    requires Preorder(cmp) && 0 < end < n && base + n <= |s| && Heap(cmp, s, base, 0, end + 1)
        && TailSorted(cmp, s, base, end + 1, n)
    ensures var t := Swapped(s, base, base + end); HeapBut(cmp, t, base, 0, end, 0) && TailSorted(cmp, t, base, end, n)
  {
    hide Preorder;
    forall c | 0 <= c < end + 1 ensures cmp(Elt(s, base, c), Elt(s, base, 0)) <= 0 {
      RootGreatest(cmp, s, base, end + 1, c);
    }
    EndSorted(cmp, s, base, end, n);
    EndSplit(cmp, s, base, end, n);
    RestHeap(cmp, s, base, end);
  }

  lemma RestHeap(cmp: Compare, s: seq<int>, base: nat, end: nat)
    requires 0 < end && base + end < |s| && Heap(cmp, s, base, 0, end + 1)
    ensures HeapBut(cmp, Swapped(s, base, base + end), base, 0, end, 0)
  {
    var t := Swapped(s, base, base + end);
    forall c | 0 < c < end && Parent(c) >= 0
        && Parent(c) != 0 ensures cmp(Elt(t, base, Parent(c)), Elt(t, base, c)) >= 0 {
      assert cmp(Elt(s, base, Parent(c)), Elt(s, base, c)) >= 0;
    }
  }

  lemma EndSorted(cmp: Compare, s: seq<int>, base: nat, end: nat, n: nat)
    requires 0 < end < n && base + n <= |s| && TailSorted(cmp, s, base, end + 1, n)
    ensures Sorted(cmp, Swapped(s, base, base + end), base + end, base + n)
  {
    var t := Swapped(s, base, base + end);
    forall x, y | base + end <= x < y < base + n ensures cmp(t[x], t[y]) <= 0 {
      if x == base + end { assert cmp(s[base], s[y]) <= 0; } else { assert cmp(s[x], s[y]) <= 0; }
    }
  }

  lemma EndSplit(cmp: Compare, s: seq<int>, base: nat, end: nat, n: nat)
    requires 0 < end < n && base + n <= |s| && TailSorted(cmp, s, base, end + 1, n)
    requires forall c | 0 <= c < end + 1 :: cmp(Elt(s, base, c), Elt(s, base, 0)) <= 0
    ensures Split(cmp, Swapped(s, base, base + end), base, base + end, base + n)
  {
    var t := Swapped(s, base, base + end);
    forall x, y | base <= x < base + end <= y < base + n ensures cmp(t[x], t[y]) <= 0 {
      var c := if x == base then end else x - base;
      assert t[x] == Elt(s, base, c);
      if y == base + end { assert t[y] == Elt(s, base, 0); } else { assert cmp(s[base + c], s[y]) <= 0; }
    }
  }

  lemma TailKept(cmp: Compare, s: seq<int>, t: seq<int>, base: nat, end: nat, n: nat)
    requires TailSorted(cmp, s, base, end, n) && Rearranged(s, t, base, base + end) && end <= n
    ensures TailSorted(cmp, t, base, end, n)
  {
    hide Rearranged;
    SortedKept(cmp, s, t, base + end, base + n, base, base + end);
    SplitKept(cmp, s, t, base, base + end, base + n, base, base + end);
  }

  lemma TailAll(cmp: Compare, s: seq<int>, base: nat, n: nat)
    requires n > 0 && TailSorted(cmp, s, base, 1, n)
    ensures Sorted(cmp, s, base, base + n)
  {
  }

  // ---- partition ----

  /** The median of the first, the middle and the last element goes to the front. */
  method MedianFirst(a: array<int>, base: nat, n: nat, cmp: Compare) returns (ghost calls: nat)
    requires base + n <= a.Length && n > 16 && Preorder(cmp)
    modifies a
    ensures Rearranged(old(a[..]), a[..], base, base + n)
    ensures cmp(a[base + n / 2], a[base]) <= 0 && cmp(a[base], a[base + n - 1]) <= 0
    ensures calls <= 3
  {
    hide Rearranged; hide Preorder; hide Swapped;
    ghost var s := a[..];
    RearrangedSelf(s, base, base + n);
    var lo, mid, hi := base, base + n / 2, base + n - 1;
    calls := 2;
    if cmp(a[mid], a[lo]) < 0 { SwapIn(a, mid, lo, base, n, s); }
    Total(cmp, a[lo], a[mid]);
    if cmp(a[hi], a[mid]) < 0 {
      calls := 3;
      SwapIn(a, hi, mid, base, n, s);
      if cmp(a[mid], a[lo]) < 0 { SwapIn(a, mid, lo, base, n, s); }
      Total(cmp, a[lo], a[mid]);
    } else {
      Total(cmp, a[mid], a[hi]);
    }
    SwapIn(a, base, mid, base, n, s);
  }

  method SwapIn(a: array<int>, i: nat, j: nat, base: nat, n: nat, ghost s: seq<int>)
    requires base <= i < base + n <= a.Length && base <= j < base + n && Rearranged(s, a[..], base, base + n)
    modifies a
    ensures Rearranged(s, a[..], base, base + n) && a[i] == old(a[j]) && a[j] == old(a[i])
    ensures forall k | 0 <= k < a.Length && k != i && k != j :: a[k] == old(a[k])
  {
    hide Rearranged;
    ghost var t := a[..];
    SwappedRearranges(t, i, j, base, base + n);
    Swap(a, i, j);
    RearrangedTrans(s, t, a[..], base, base + n);
    ghost var u := a[..];
    assert u[i] == t[j] && u[j] == t[i];
    forall k | 0 <= k < a.Length && k != i && k != j ensures a[k] == old(a[k]) { assert u[k] == t[k]; }
  }

  lemma Total(cmp: Compare, x: int, y: int)
    requires Preorder(cmp)
    ensures cmp(x, y) <= 0 || cmp(y, x) < 0
    ensures cmp(x, y) >= 0 <==> cmp(y, x) <= 0
  {
  }

  /** Hoare's partition around the first element. */
  method Partition(a: array<int>, base: nat, n: nat, cmp: Compare) returns (j: nat, ghost calls: nat)
    requires base + n <= a.Length && n > 0 && Preorder(cmp)
    modifies a
    ensures Rearranged(old(a[..]), a[..], base, base + n) && j < n
    ensures var s := a[..];
            AtMost(cmp, s, base, base + j, s[base + j]) && AtLeast(cmp, s, base + j + 1, base + n, s[base + j])
    ensures calls <= 2 * n
  {
    hide Rearranged; hide Preorder;
    ghost var s := a[..];
    j, calls := Cross(a, base, n, cmp);
    Reflexive(cmp, a[base]);
    SwapIn(a, base, base + j, base, n, s);
  }

  /** The loop: two scans towards each other, until they cross. */
  method Cross(a: array<int>, base: nat, n: nat, cmp: Compare) returns (j: nat, ghost calls: nat)
    requires base + n <= a.Length && n > 0 && Preorder(cmp)
    modifies a
    ensures Rearranged(old(a[..]), a[..], base, base + n) && j < n && calls <= 2 * n
    ensures forall k | base < k <= base + j :: cmp(a[k], a[base]) <= 0
    ensures forall k | base + j < k < base + n :: cmp(a[base], a[k]) <= 0
  {
    hide Rearranged; hide Preorder;
    calls := 0;
    ghost var s := a[..];
    RearrangedSelf(s, base, base + n);
    ghost var p := a[base];
    var i := 0;
    j := n;
    while true
      invariant 0 <= i < j <= n && Rearranged(s, a[..], base, base + n) && a[base] == p
      invariant calls <= i + (n - j)
      invariant forall k | base < k <= base + i :: cmp(a[k], p) <= 0
      invariant forall k | base + j <= k < base + n :: cmp(p, a[k]) <= 0
      decreases j - i
    {
      ghost var up, down;
      i, up := ScanUp(a, base, i, n, cmp);
      j, down := ScanDown(a, base, j, n, cmp);
      calls := calls + up + down;
      if i >= j { break; }
      Total(cmp, a[base + i], p);
      SwapIn(a, base + i, base + j, base, n, s);
    }
  }

  /** do i++ while i < n and the element is less than the first. */
  method ScanUp(a: array<int>, base: nat, i0: nat, n: nat, cmp: Compare) returns (i: nat, ghost calls: nat)
    requires base + n <= a.Length && i0 < n
    ensures i0 < i <= n && (i < n ==> cmp(a[base + i], a[base]) >= 0)
    ensures forall k | base + i0 < k < base + i :: cmp(a[k], a[base]) < 0
    ensures calls <= i - i0
  {
    i, calls := i0 + 1, 0;
    while i < n && cmp(a[base + i], a[base]) < 0
      invariant calls == i - i0 - 1
      invariant i0 < i <= n && forall k | base + i0 < k < base + i :: cmp(a[k], a[base]) < 0
    {
      i, calls := i + 1, calls + 1;
    }
    if i < n { calls := calls + 1; }
  }

  /** do j-- while the element is greater than the first, which stops it at last. */
  method ScanDown(a: array<int>, base: nat, j0: nat, n: nat, cmp: Compare) returns (j: nat, ghost calls: nat)
    requires base + n <= a.Length && 0 < j0 <= n && Preorder(cmp)
    ensures j < j0 && cmp(a[base + j], a[base]) <= 0
    ensures forall k | base + j < k < base + j0 :: cmp(a[base], a[k]) <= 0
    ensures calls == j0 - j
  {
    hide Preorder;
    j, calls := j0 - 1, 1;
    Reflexive(cmp, a[base]);
    while cmp(a[base + j], a[base]) > 0
      invariant 0 <= j < j0 && forall k | base + j < k < base + j0 :: cmp(a[base], a[k]) <= 0
      invariant calls == j0 - j
      decreases j
    {
      MoreIsLess(cmp, a[base + j], a[base]);
      j, calls := j - 1, calls + 1;
    }
  }

  /** Choose a pivot and partition around it. */
  method Divide(a: array<int>, base: nat, n: nat, cmp: Compare) returns (j: nat, ghost calls: nat)
    requires base + n <= a.Length && n > 16 && Preorder(cmp)
    modifies a
    ensures Rearranged(old(a[..]), a[..], base, base + n) && j < n
    ensures var s := a[..];
            AtMost(cmp, s, base, base + j, s[base + j]) && AtLeast(cmp, s, base + j + 1, base + n, s[base + j])
    ensures calls <= 3 * n
  {
    hide Rearranged; hide Preorder; hide AtMost; hide AtLeast;
    ghost var s := a[..];
    ghost var few := MedianFirst(a, base, n, cmp);
    ghost var t := a[..];
    j, calls := Partition(a, base, n, cmp);
    calls := calls + few;
    RearrangedTrans(s, t, a[..], base, base + n);
  }

  // ---- introsort ----

  /** The stretches from lo to b and from e to hi are in their final places. */
  ghost predicate Placed(cmp: Compare, s: seq<int>, lo: nat, b: nat, e: nat, hi: nat) {
    lo <= b <= e <= hi && Sorted(cmp, s, lo, b) && Sorted(cmp, s, e, hi) && Split(cmp, s, lo, b, hi)
        && Split(cmp, s, lo, e, hi)
  }

  lemma PlacedKept(cmp: Compare, s: seq<int>, t: seq<int>, lo: nat, b: nat, e: nat, hi: nat, x: nat, y: nat)
    requires Placed(cmp, s, lo, b, e, hi) && Rearranged(s, t, x, y) && b <= x && y <= e
    ensures Placed(cmp, t, lo, b, e, hi)
  {
    hide Rearranged; hide Sorted; hide Split;
    RearrangedBounds(s, t, x, y);
    SortedKept(cmp, s, t, lo, b, x, y); SortedKept(cmp, s, t, e, hi, x, y);
    SplitKept(cmp, s, t, lo, b, hi, x, y); SplitKept(cmp, s, t, lo, e, hi, x, y);
  }

  lemma RearrangedBounds(s: seq<int>, t: seq<int>, x: nat, y: nat)
    requires Rearranged(s, t, x, y)
    ensures x <= y <= |s| == |t|
  {
  }

  lemma AtMostKept(cmp: Compare, s: seq<int>, t: seq<int>, lo: nat, hi: nat, p: nat)
    requires hi <= p < |s| && AtMost(cmp, s, lo, hi, s[p]) && Rearranged(s, t, lo, hi)
    ensures t[p] == s[p] && AtMost(cmp, t, lo, hi, t[p])
  {
    var q := Origin(s, t, lo, hi, p);
    forall i | lo <= i < hi ensures cmp(t[i], t[p]) <= 0 { var j := Origin(s, t, lo, hi, i); }
  }

  lemma AtLeastKept(cmp: Compare, s: seq<int>, t: seq<int>, lo: nat, hi: nat, p: nat)
    requires p < lo <= |s| && AtLeast(cmp, s, lo, hi, s[p]) && Rearranged(s, t, lo, hi)
    ensures t[p] == s[p] && AtLeast(cmp, t, lo, hi, t[p])
  {
    var q := Origin(s, t, lo, hi, p);
    forall i | lo <= i < hi ensures cmp(t[p], t[i]) <= 0 { var j := Origin(s, t, lo, hi, i); }
  }

  /** A sorted part below the pivot, and the pivot, are placed. */
  lemma PlaceLeft(cmp: Compare, s: seq<int>, lo: nat, b: nat, e: nat, hi: nat, p: nat)
    requires Preorder(cmp) && Placed(cmp, s, lo, b, e, hi) && b <= p < e && Sorted(cmp, s, b, p)
        && AtMost(cmp, s, b, p, s[p]) && AtLeast(cmp, s, p + 1, e, s[p])
    ensures Placed(cmp, s, lo, p + 1, e, hi)
  {
    hide Preorder;
    forall i, j | lo <= i < j < p + 1 ensures cmp(s[i], s[j]) <= 0 { }
    forall i, j | lo <= i < p + 1 <= j < hi ensures cmp(s[i], s[j]) <= 0 {
      if b <= i < p && j < e { Trans(cmp, s[i], s[p], s[j]); }
    }
  }

  /** A sorted part above the pivot, and the pivot, are placed. */
  lemma PlaceRight(cmp: Compare, s: seq<int>, lo: nat, b: nat, e: nat, hi: nat, p: nat)
    requires Preorder(cmp) && Placed(cmp, s, lo, b, e, hi) && b <= p < e && Sorted(cmp, s, p + 1, e)
        && AtMost(cmp, s, b, p, s[p]) && AtLeast(cmp, s, p + 1, e, s[p])
    ensures Placed(cmp, s, lo, b, p, hi)
  {
    hide Preorder;
    forall i, j | p <= i < j < hi ensures cmp(s[i], s[j]) <= 0 { }
    forall i, j | lo <= i < p <= j < hi ensures cmp(s[i], s[j]) <= 0 {
      if b <= i && p < j < e { Trans(cmp, s[i], s[p], s[j]); }
    }
  }

  lemma AllPlaced(cmp: Compare, s: seq<int>, lo: nat, b: nat, e: nat, hi: nat)
    requires Placed(cmp, s, lo, b, e, hi) && Sorted(cmp, s, b, e)
    ensures Sorted(cmp, s, lo, hi)
  {
    forall i, j | lo <= i < j < hi ensures cmp(s[i], s[j]) <= 0 { }
  }

  /** Recursion on the smaller side at most halves: nest levels need 2^nest elements. */
  predicate Shallow(nest: nat, n: nat) { nest == 0 || Pow2(nest) <= n }

  lemma Deeper(sub: nat, m: nat, n: nat)
    requires Shallow(sub, m) && n > 16 && 2 * m < n
    ensures Shallow(sub + 1, n)
  {
    HalfPower(sub + 1);
    TwoZero();
  }

  lemma ShallowMore(nest: nat, m: nat, n: nat)
    requires Shallow(nest, m) && m <= n
    ensures Shallow(nest, n)
  {
  }

  /** What n elements may cost with that many divisions left: each level costs at most three comparisons an
      element, and heapsort three for each of the bits of the number of elements. */
  function Allowance(n: nat, depth: nat, bits: nat): nat { n * (3 * depth + 3 * bits + 8) }

  lemma DivisionPays(n: nat, left: nat, right: nat, depth: nat, bits: nat)
    requires left + right + 1 == n && depth > 0
    ensures 3 * n + Allowance(left, depth - 1, bits) + Allowance(right, depth - 1, bits) <= Allowance(n, depth, bits)
  {
    var w := 3 * depth + 3 * bits + 5;
    MulDistr(w, left, right); MulComm(w, left); MulComm(w, right); MulComm(w, left + right);
    MulMono(left + right, n, w, w);
    MulDistr(n, w, 3); MulComm(n, 3);
  }

  lemma AllowanceMore(n: nat, depth: nat, bits: nat, bits': nat)
    requires bits <= bits'
    ensures Allowance(n, depth, bits) <= Allowance(n, depth, bits')
  {
    MulMono(n, n, 3 * depth + 3 * bits + 8, 3 * depth + 3 * bits' + 8);
  }

  lemma HeapsortPays(n: nat, depth: nat, b: nat, bits: nat)
    requires b <= bits
    ensures n * (3 * b) <= Allowance(n, depth, bits)
  {
    MulMono(n, n, 3 * b, 3 * depth + 3 * bits + 8);
  }

  lemma InsertionPays(n: nat, calls: nat, depth: nat, bits: nat)
    requires n <= 16 && 2 * calls <= n * n
    ensures calls <= Allowance(n, depth, bits)
  {
    MulMono(n, n, n, 16);
    MulMono(n, n, 8, 3 * depth + 3 * bits + 8);
  }

  method Introsort(a: array<int>, base0: nat, n0: nat, depth0: nat, cmp: Compare) returns (nest: nat, ghost calls: nat)
    requires base0 + n0 <= a.Length && Preorder(cmp)
    modifies a
    ensures Rearranged(old(a[..]), a[..], base0, base0 + n0) && Sorted(cmp, a[..], base0, base0 + n0)
    ensures Shallow(nest, n0)
    ensures calls <= Allowance(n0, depth0, BitLen(n0))
    decreases n0
  {
    hide Rearranged; hide Preorder; hide Sorted; hide Split; hide AtMost; hide AtLeast; hide Placed; hide Shallow;
    hide Pow; hide Allowance; hide BitLen;
    ghost var bits := BitLen(n0);
    calls := 0;
    ghost var s, hi := a[..], base0 + n0;
    RearrangedSelf(s, base0, hi);
    NothingPlaced(cmp, s, base0, hi);
    var base: nat, n: nat, depth: nat := base0, n0, depth0;
    nest := 0;
    NoNest(n0);
    while n > 16
      invariant base0 <= base && base + n <= hi && n <= n0 && Rearranged(s, a[..], base0, hi)
      invariant Placed(cmp, a[..], base0, base, base + n, hi) && Shallow(nest, n0)
      invariant calls + Allowance(n, depth, bits) <= Allowance(n0, depth0, bits)
      decreases n
    {
      ghost var t := a[..];
      if depth == 0 {
        ghost var rest := Heapsort(a, base, n, cmp);
        BitLenMono(n, n0);
        HeapsortPays(n, depth, BitLen(n), bits);
        calls := calls + rest;
        Finished(cmp, s, t, a[..], base0, base, base + n, hi);
        return;
      }
      depth := depth - 1;
      var j;
      ghost var some, cost;
      j, cost := Divide(a, base, n, cmp);
      DivisionPays(n, j, n - j - 1, depth + 1, bits);
      Kept(cmp, s, t, a[..], base0, base, base + n, hi, base, base + n);
      var left, right := j, n - j - 1;
      ghost var v := a[..];
      var sub;
      if left < right {
        sub, some := Introsort(a, base, left, depth, cmp);
        BitLenMono(left, n0);
        AllowanceMore(left, depth, BitLen(left), bits);
        LeftDone(cmp, v, a[..], base0, base, base + n, hi, base + j);
        Kept2(s, v, a[..], base0, hi, base, base + left);
        Deeper(sub, left, n);
        base, n := base + j + 1, right;
      } else {
        sub, some := Introsort(a, base + j + 1, right, depth, cmp);
        BitLenMono(right, n0);
        AllowanceMore(right, depth, BitLen(right), bits);
        RightDone(cmp, v, a[..], base0, base, base + n, hi, base + j);
        Kept2(s, v, a[..], base0, hi, base + j + 1, base + n);
        Deeper(sub, right, n);
        n := left;
      }
      ShallowMore(sub + 1, left + right + 1, n0);
      if sub + 1 > nest { nest := sub + 1; }
      calls := calls + cost + some;
    }
    ghost var t := a[..];
    ghost var last := Insertion(a, base, n, cmp);
    InsertionPays(n, last, depth, bits);
    calls := calls + last;
    Finished(cmp, s, t, a[..], base0, base, base + n, hi);
  }

  lemma NothingPlaced(cmp: Compare, s: seq<int>, lo: nat, hi: nat)
    requires lo <= hi <= |s|
    ensures Placed(cmp, s, lo, lo, hi, hi)
  {
  }

  lemma NoNest(n: nat)
    ensures Shallow(0, n)
  {
  }

  lemma Kept(cmp: Compare, s: seq<int>, t: seq<int>, u: seq<int>, lo: nat, b: nat, e: nat, hi: nat, x: nat, y: nat)
    requires Rearranged(s, t, lo, hi) && Rearranged(t, u, x, y) && Placed(cmp, t, lo, b, e, hi) && b <= x && y <= e
        && lo <= b && e <= hi
    ensures Rearranged(s, u, lo, hi) && Placed(cmp, u, lo, b, e, hi)
  {
    hide Rearranged; hide Sorted; hide Split;
    RearrangedBounds(s, t, lo, hi);
    RearrangedWider(t, u, lo, hi, x, y);
    RearrangedTrans(s, t, u, lo, hi);
    PlacedKept(cmp, t, u, lo, b, e, hi, x, y);
  }

  lemma Kept2(s: seq<int>, t: seq<int>, u: seq<int>, lo: nat, hi: nat, x: nat, y: nat)
    requires Rearranged(s, t, lo, hi) && Rearranged(t, u, x, y) && lo <= x && y <= hi
    ensures Rearranged(s, u, lo, hi)
  {
    hide Rearranged;
    RearrangedBounds(s, t, lo, hi);
    RearrangedWider(t, u, lo, hi, x, y);
    RearrangedTrans(s, t, u, lo, hi);
  }

  lemma Finished(cmp: Compare, s: seq<int>, t: seq<int>, u: seq<int>, lo: nat, b: nat, e: nat, hi: nat)
    requires Rearranged(s, t, lo, hi) && Rearranged(t, u, b, e) && Placed(cmp, t, lo, b, e, hi)
        && Sorted(cmp, u, b, e) && lo <= b && e <= hi
    ensures Rearranged(s, u, lo, hi) && Sorted(cmp, u, lo, hi)
  {
    hide Rearranged; hide Placed; hide Sorted;
    Kept(cmp, s, t, u, lo, b, e, hi, b, e);
    AllPlaced(cmp, u, lo, b, e, hi);
  }

  lemma LeftDone(cmp: Compare, s: seq<int>, t: seq<int>, lo: nat, b: nat, e: nat, hi: nat, p: nat)
    requires Preorder(cmp) && Placed(cmp, s, lo, b, e, hi) && b <= p < e <= hi <= |s| && Rearranged(s, t, b, p)
        && Sorted(cmp, t, b, p)
    requires AtMost(cmp, s, b, p, s[p]) && AtLeast(cmp, s, p + 1, e, s[p])
    ensures Placed(cmp, t, lo, p + 1, e, hi)
  {
    hide Preorder; hide Placed; hide Sorted;
    PlacedKept(cmp, s, t, lo, b, e, hi, b, p);
    AtMostKept(cmp, s, t, b, p, p);
    forall i | p + 1 <= i < e ensures cmp(t[p], t[i]) <= 0 { var j := Origin(s, t, b, p, i); }
    PlaceLeft(cmp, t, lo, b, e, hi, p);
  }

  lemma RightDone(cmp: Compare, s: seq<int>, t: seq<int>, lo: nat, b: nat, e: nat, hi: nat, p: nat)
    requires Preorder(cmp) && Placed(cmp, s, lo, b, e, hi) && b <= p < e <= hi <= |s| && Rearranged(s, t, p + 1, e)
        && Sorted(cmp, t, p + 1, e)
    requires AtMost(cmp, s, b, p, s[p]) && AtLeast(cmp, s, p + 1, e, s[p])
    ensures Placed(cmp, t, lo, b, p, hi)
  {
    hide Preorder; hide Placed; hide Sorted;
    PlacedKept(cmp, s, t, lo, b, e, hi, p + 1, e);
    AtLeastKept(cmp, s, t, p + 1, e, p);
    forall i | b <= i < p ensures cmp(t[i], t[p]) <= 0 { var j := Origin(s, t, p + 1, e, i); }
    PlaceRight(cmp, t, lo, b, e, hi, p);
  }

  /** `qsort_r`: a sorted rearrangement; recursion no deeper than log2 of the number n of elements, and no more
      than some multiple of n log n comparisons, whatever the elements are. */
  method QsortR(a: array<int>, cmp: Compare) returns (nest: nat, ghost calls: nat)
    requires Preorder(cmp)
    modifies a
    ensures multiset(a[..]) == multiset(old(a[..])) && Sorted(cmp, a[..], 0, a.Length)
    ensures nest == 0 || Pow2(nest) <= a.Length
    ensures calls <= a.Length * (9 * BitLen(a.Length) + 8)
  {
    var n := a.Length;
    nest, calls := 0, 0;
    if n < 2 { return; }
    ghost var s := a[..];
    nest, calls := Introsort(a, 0, n, 2 * BitLen(n), cmp);
    assert s[0..n] == s && a[..][0..n] == a[..];
  }

  /** `bsearch`: an element that compares equal, if there is one. */
  method Bsearch(key: int, a: array<int>, cmp: Compare) returns (r: int)
    requires Preorder(cmp) && Sorted(cmp, a[..], 0, a.Length)
    ensures -1 <= r < a.Length && (r >= 0 ==> cmp(key, a[r]) == 0)
    ensures r < 0 ==> forall k | 0 <= k < a.Length :: cmp(key, a[k]) != 0
  {
    hide Preorder;
    var b: nat, n: nat := 0, a.Length;
    while n > 0
      invariant b + n <= a.Length
      invariant forall k | 0 <= k < b :: cmp(key, a[k]) > 0
      invariant forall k | b + n <= k < a.Length :: cmp(key, a[k]) < 0
    {
      var mid := b + n / 2;
      var c := cmp(key, a[mid]);
      if c == 0 { return mid; }
      if c > 0 {
        forall k | 0 <= k < mid ensures cmp(key, a[k]) > 0 { BeyondLower(cmp, key, a[..], k, mid); }
        b, n := mid + 1, n - (n / 2 + 1);
      } else {
        forall k | mid < k < a.Length ensures cmp(key, a[k]) < 0 { BeyondUpper(cmp, key, a[..], mid, k); }
        n := n / 2;
      }
    }
    r := -1;
  }

  lemma BeyondLower(cmp: Compare, key: int, s: seq<int>, k: nat, mid: nat)
    requires Preorder(cmp) && k < mid < |s| && Sorted(cmp, s, 0, |s|) && cmp(key, s[mid]) > 0
    ensures cmp(key, s[k]) > 0
  {
    MoreIsLess(cmp, key, s[mid]);
    LessTrans(cmp, s[k], s[mid], key);
    MoreIsLess(cmp, key, s[k]);
  }

  lemma BeyondUpper(cmp: Compare, key: int, s: seq<int>, mid: nat, k: nat)
    requires Preorder(cmp) && mid < k < |s| && Sorted(cmp, s, 0, |s|) && cmp(key, s[mid]) < 0
    ensures cmp(key, s[k]) < 0
  {
    LessTrans(cmp, key, s[mid], s[k]);
  }
}
