/** The hash table of src/search.c (`hcreate_r`, `hsearch_r`): open addressing with triangular
    probing over a power of two, the hash itself a parameter. */
module Hsearch {
  import opened Basics
  import opened Powers

  // ---- triangular numbers modulo a power of two ----

  function Tri(k: nat): nat { k * (k + 1) / 2 }

  lemma TriStep(k: nat)
    ensures Tri(k + 1) == Tri(k) + k + 1
  {
    assert (k + 1) * (k + 2) == k * (k + 1) + 2 * (k + 1);
  }

  lemma TriEven(k: nat)
    ensures 2 * Tri(k) == k * (k + 1)
  {
    if k == 0 {
    } else {
      TriEven(k - 1);
      TriStep(k - 1);
      assert k * (k + 1) == (k - 1) * k + 2 * k;
    }
  }

  /** An odd factor does not help a power of two to divide. */
  lemma {:induction false} OddFactor(d: nat, x: nat, n: nat)
    requires d % 2 == 1 && d * x % Pow2(n) == 0
    ensures x % Pow2(n) == 0
    decreases n
  {
    if n == 0 {
      TwoZero();
    } else {
      HalfPower(n);
      hide Pow;
      var g := Pow2(n - 1);
      DivMod(d * x, 2 * g);
      var q := d * x / (2 * g);
      MulAssoc(2, g, q);
      OddTimes(d, x, g * q);
      var y := x / 2;
      MulAssoc(d, 2, y); MulComm(d, 2); MulAssoc(2, d, y);
      DivUnique(d * y, g, q, 0);
      OddFactor(d, y, n - 1);
      DivMod(y, g);
      MulAssoc(2, g, y / g);
      DivUnique(x, 2 * g, y / g, 0);
    }
  }

  lemma OddTimes(d: nat, x: nat, h: nat)
    requires d % 2 == 1 && d * x == 2 * h
    ensures x % 2 == 0
  {
    var c := d / 2;
    assert d == 2 * c + 1;
    assert (2 * c + 1) * x == 2 * (c * x) + x;
  }

  /** The first 2^n triangular numbers are different modulo 2^n. */
  lemma TriDistinct(a: nat, b: nat, n: nat)
    requires a < b < Pow2(n)
    ensures Tri(a) <= Tri(b) && (Tri(b) - Tri(a)) % Pow2(n) != 0
  {
    hide Pow; hide Tri;
    TriDifference(a, b);
    var u, v := b - a, b + a + 1;
    var d := Tri(b) - Tri(a);
    if d % Pow2(n) == 0 {
      HalfPower(n + 1);
      DivMod(d, Pow2(n));
      MulAssoc(2, Pow2(n), d / Pow2(n));
      DivUnique(u * v, Pow2(n + 1), d / Pow2(n), 0);
      TooSmall(u, v, n);
    }
  }

  lemma TriDifference(a: nat, b: nat)
    requires a < b
    ensures Tri(a) <= Tri(b) && (b - a) * (b + a + 1) == 2 * (Tri(b) - Tri(a))
  {
    TriEven(a); TriEven(b);
    MulMono(a, b, a + 1, b + 1);
    assert (b - a) * (b + a + 1) == b * (b + 1) - a * (a + 1);
  }

  /** One of two factors of different parity is odd, so the power divides the other; both are
      smaller. */
  lemma TooSmall(u: nat, v: nat, n: nat)
    requires 0 < u < Pow2(n + 1) && 0 < v < Pow2(n + 1) && (u + v) % 2 == 1
    ensures u * v % Pow2(n + 1) != 0
  {
    hide Pow;
    DivUnique(u, Pow2(n + 1), 0, u); DivUnique(v, Pow2(n + 1), 0, v);
    if u * v % Pow2(n + 1) == 0 {
      if u % 2 == 1 { OddFactor(u, v, n + 1); } else { MulComm(u, v); OddFactor(v, u, n + 1); }
    }
  }

  // ---- probe sequences ----

  /** The k-th slot probed. */
  function Probe(h: nat, k: nat, size: nat): nat
    requires size > 0
  {
    (h + Tri(k)) % size
  }

  lemma ProbeStep(h: nat, k: nat, size: nat)
    requires size > 0
    ensures Probe(h, k + 1, size) == (Probe(h, k, size) + k + 1) % size
  {
    TriStep(k);
    ModAdd(h + Tri(k), k + 1, size);
  }

  lemma ModAdd(a: nat, b: nat, m: nat)
    requires m > 0
    ensures (a + b) % m == (a % m + b) % m
  {
    DivMod(a, m);
    DivAddMultiple(m, a / m, a % m + b);
  }

  /** The first 2^n probes go to different slots. */
  lemma ProbesDistinct(h: nat, a: nat, b: nat, n: nat)
    requires a < b < Pow2(n)
    ensures Probe(h, a, Pow2(n)) != Probe(h, b, Pow2(n))
  {
    hide Pow;
    TriDistinct(a, b, n);
    if Probe(h, a, Pow2(n)) == Probe(h, b, Pow2(n)) {
      SameModDiffers(h + Tri(a), h + Tri(b), Pow2(n));
    }
  }

  lemma SameModDiffers(x: nat, y: nat, m: nat)
    requires m > 0 && x <= y && x % m == y % m
    ensures (y - x) % m == 0
  {
    DivMod(x, m); DivMod(y, m);
    var a, b := x / m, y / m;
    if b < a { MulMono(m, m, b + 1, a); MulDistr(m, b, 1); }
    MulDistr(m, b, a);
    DivUnique(y - x, m, b - a, 0);
  }

  function Probed(h: nat, k: nat, size: nat): set<nat>
    requires size > 0
  {
    set j: nat | j < k :: Probe(h, j, size)
  }

  /** So they go to all of them. */
  lemma {:induction false} ProbedSize(h: nat, k: nat, n: nat)
    requires k <= Pow2(n)
    ensures |Probed(h, k, Pow2(n))| == k
  {
    hide Pow;
    if k == 0 {
      assert Probed(h, k, Pow2(n)) == {};
    } else {
      ProbedSize(h, k - 1, n);
      var x := Probe(h, k - 1, Pow2(n));
      assert Probed(h, k, Pow2(n)) == Probed(h, k - 1, Pow2(n)) + {x};
      if x in Probed(h, k - 1, Pow2(n)) {
        var j: nat :| j < k - 1 && Probe(h, j, Pow2(n)) == x;
        ProbesDistinct(h, j, k - 1, n);
      }
    }
  }

  lemma {:induction false} SubsetSize(a: set<nat>, b: set<nat>)
    requires a <= b
    ensures |a| <= |b|
    decreases |a|
  {
    if a != {} {
      var x :| x in a;
      SubsetSize(a - {x}, b - {x});
    }
  }

  function Below(n: nat): (s: set<nat>)
    ensures forall x: nat :: x in s <==> x < n
  {
    if n == 0 then {} else Below(n - 1) + {n - 1}
  }

  lemma {:induction false} BelowSize(n: nat)
    ensures |Below(n)| == n
  {
    if n > 0 { BelowSize(n - 1); }
  }

  lemma {:induction false} SameSize(a: set<nat>, b: set<nat>)
    requires a <= b && |a| == |b|
    ensures a == b
    decreases |a|
  {
    if a == {} {
    } else {
      var x :| x in a;
      SameSize(a - {x}, b - {x});
      assert a == (a - {x}) + {x} && b == (b - {x}) + {x};
    }
  }

  /** The first 2^n probes of any search visit every slot, each once. */
  lemma ProbesCover(h: nat, n: nat)
    ensures Probed(h, Pow2(n), Pow2(n)) == Below(Pow2(n)) && |Probed(h, Pow2(n), Pow2(n))| == Pow2(n)
  {
    hide Pow;
    ProbedSize(h, Pow2(n), n);
    BelowSize(Pow2(n));
    SameSize(Probed(h, Pow2(n), Pow2(n)), Below(Pow2(n)));
  }

  // ---- the table ----

  datatype Entry = Entry(key: string, data: int)

  datatype Action = FIND | ENTER

  /** The slot of the entry, or why there is none: ESRCH for FIND, ENOMEM for ENTER. */
  datatype Result = Slot(i: nat) | NotThere | Full

  type Slots = seq<Option<Entry>>

  predicate KeyAt(e: Slots, i: nat, key: string) { i < |e| && e[i].Some? && e[i].value.key == key }

  /** The occupied slots. */
  function Occupied(e: Slots): set<nat> { set i: nat | i < |e| && e[i].Some? }

  /** Every entry is where probing for its key finds it: no free slot comes before it. */
  ghost predicate Reachable(e: Slots, hash: string -> nat, i: nat, k: nat)
    requires i < |e| && e[i].Some?
  {
    Probe(hash(e[i].value.key), k, |e|) == i && forall j: nat | j < k :: Filled(e, hash(e[i].value.key), j)
  }

  /** The j-th probe for a hash finds a slot in use. */
  predicate Filled(e: Slots, h: nat, j: nat)
    requires |e| > 0
  {
    e[Probe(h, j, |e|)].Some?
  }

  ghost predicate Findable(e: Slots, hash: string -> nat, i: nat)
    requires i < |e| && e[i].Some?
  {
    exists k: nat :: k < |e| && Reachable(e, hash, i, k)
  }

  ghost predicate WellFormed(e: Slots, hash: string -> nat) {
    && (forall i: nat | i < |e| && e[i].Some? :: Findable(e, hash, i))
    && Distinct(e)
  }

  /** The finite map that the slots stand for. */
  ghost function Contents(e: Slots): map<string, int> {
    if e == [] then map[]
    else
      var m, last := Contents(e[..|e| - 1]), e[|e| - 1];
      if last.Some? then m[last.value.key := last.value.data] else m
  }

  predicate Distinct(e: Slots) {
    forall i: nat, j: nat | i < |e| && j < |e| && e[i].Some? && e[j].Some? && e[i].value.key == e[j].value.key :: i == j
  }

  lemma {:induction false} Listed(e: Slots, i: nat)
    requires Distinct(e) && i < |e| && e[i].Some?
    ensures e[i].value.key in Contents(e) && Contents(e)[e[i].value.key] == e[i].value.data
    decreases |e|
  {
    if i < |e| - 1 { Listed(e[..|e| - 1], i); }
  }

  lemma {:induction false} Located(e: Slots, key: string) returns (i: nat)
    requires Distinct(e) && key in Contents(e)
    ensures KeyAt(e, i, key) && Contents(e)[key] == e[i].value.data
    decreases |e|
  {
    var n := |e| - 1;
    if KeyAt(e, n, key) { i := n; } else { i := Located(e[..n], key); }
  }

  /** A search that has passed k occupied slots without meeting its key has not missed it. */
  ghost predicate Passed(e: Slots, h: nat, key: string, k: nat)
    requires |e| > 0
  {
    forall j: nat | j < k :: Filled(e, h, j) && e[Probe(h, j, |e|)].value.key != key
  }

  /** An entry is found before a free slot. */
  lemma OnTheWay(e: Slots, hash: string -> nat, key: string, k: nat, i: nat)
    requires WellFormed(e, hash) && KeyAt(e, i, key) && Passed(e, hash(key), key, k)
    ensures Filled(e, hash(key), k)
  {
    hide Probe;
    var n: nat :| n < |e| && Reachable(e, hash, i, n);
    if n < k { assert false; }
  }

  /** A free slot on the way means the key is nowhere. */
  lemma NotPresent(e: Slots, hash: string -> nat, key: string, k: nat)
    requires WellFormed(e, hash) && |e| > 0 && Passed(e, hash(key), key, k) && !Filled(e, hash(key), k)
    ensures key !in Contents(e)
  {
    hide Contents; hide Probe;
    if key in Contents(e) {
      var i := Located(e, key);
      OnTheWay(e, hash, key, k, i);
    }
  }

  /** As long as a slot is free, a search ends within as many probes as there are slots. */
  lemma SearchEnds(e: Slots, h: nat, key: string, n: nat)
    requires |e| == Pow2(n) && Passed(e, h, key, |e|)
    ensures |Occupied(e)| >= |e|
  {
    hide Pow;
    ProbedSize(h, |e|, n);
    assert Probed(h, |e|, |e|) <= Occupied(e) by {
      forall x | x in Probed(h, |e|, |e|) ensures x in Occupied(e) {
        var j: nat :| j < |e| && Probe(h, j, |e|) == x;
        assert Filled(e, h, j);
      }
    }
    SubsetSize(Probed(h, |e|, |e|), Occupied(e));
  }

  /** Filling the free slot that ended a search. */
  lemma Inserted(e: Slots, hash: string -> nat, item: Entry, k: nat)
    requires WellFormed(e, hash) && k < |e| && Passed(e, hash(item.key), item.key, k) && !Filled(e, hash(item.key), k)
    ensures var i := Probe(hash(item.key), k, |e|); var e' := e[i := Some(item)];
            && WellFormed(e', hash) && Contents(e') == Contents(e)[item.key := item.data]
            && Occupied(e') == Occupied(e) + {i} && i !in Occupied(e)
  {
    hide Contents;
    var i := Probe(hash(item.key), k, |e|);
    var e' := e[i := Some(item)];
    NotPresent(e, hash, item.key, k);
    forall x: nat | x < |e'| && e'[x].Some? ensures Findable(e', hash, x) { StillFindable(e, hash, item, k, x); }
    forall x: nat, y: nat | x < |e'| && y < |e'| && e'[x].Some? && e'[y].Some?
        && e'[x].value.key == e'[y].value.key ensures x == y {
      if x != i { Listed(e, x); }
      if y != i { Listed(e, y); }
    }
    ContentsGrow(e, item, i);
  }

  lemma StillFindable(e: Slots, hash: string -> nat, item: Entry, k: nat, x: nat)
    requires WellFormed(e, hash) && k < |e| && Passed(e, hash(item.key), item.key, k)
    requires var i := Probe(hash(item.key), k, |e|); var e' := e[i := Some(item)]; x < |e'| && e'[x].Some?
    ensures var i := Probe(hash(item.key), k, |e|); Findable(e[i := Some(item)], hash, x)
  {
    var i := Probe(hash(item.key), k, |e|);
    var e' := e[i := Some(item)];
    if x == i {
      forall j: nat | j < k ensures Filled(e', hash(item.key), j) { assert Filled(e, hash(item.key), j); }
      assert Reachable(e', hash, x, k);
    } else {
      assert Findable(e, hash, x);
      var n: nat :| n < |e| && Reachable(e, hash, x, n);
      var h := hash(e[x].value.key);
      forall j: nat | j < n ensures Filled(e', h, j) { assert Filled(e, h, j); }
      assert Reachable(e', hash, x, n);
    }
  }

  lemma ContentsGrow(e: Slots, item: Entry, i: nat)
    requires Distinct(e) && i < |e| && e[i].None? && Distinct(e[i := Some(item)])
    ensures Contents(e[i := Some(item)]) == Contents(e)[item.key := item.data]
  {
    var e' := e[i := Some(item)];
    hide Contents;
    var a, b := Contents(e'), Contents(e)[item.key := item.data];
    Listed(e', i);
    forall key | key in a ensures key in b && a[key] == b[key] {
      var x := Located(e', key);
      if x != i { Listed(e, x); }
    }
    forall key | key in b ensures key in a {
      if key != item.key {
        var x := Located(e, key);
        Listed(e', x);
      }
    }
  }

  class Table {
    var e: array<Option<Entry>>
    var mask: nat
    var used: nat
    const hash: string -> nat
    ghost var n: nat

    ghost predicate Valid()
      reads this, e
    {
      && e.Length == Pow2(n) && mask == e.Length - 1 && used == |Occupied(e[..])| && WellFormed(e[..], hash)
      && used <= mask - mask / 4
    }

    ghost function Map(): map<string, int>
      reads this, e
    {
      Contents(e[..])
    }

    /** `hcreate_r`: the smallest power of two, from 8 on, that leaves a quarter free. */
    constructor (nel: nat, hash: string -> nat)
      ensures Valid() && fresh(e) && Map() == map[] && this.hash == hash && used == 0
      ensures nel <= mask - mask / 4 && (e.Length == 8 || e.Length < 2 * (nel + nel / 3 + 1))
    {
      var size: nat := 8;
      ghost var k: nat := 3;
      EightIsPower();
      while size < nel + nel / 3 + 1
        invariant size == Pow2(k) && size >= 8 && (size == 8 || size < 2 * (nel + nel / 3 + 1))
      {
        HalfPower(k + 1);
        size := 2 * size;
        k := k + 1;
      }
      this.hash := hash;
      e := new Option<Entry>[size](_ => None);
      mask := size - 1;
      used := 0;
      n := k;
      QuarterFree(nel, size);
      new;
      EmptyTable(e[..], hash);
    }

    /** `hsearch_r` on a table: FIND finds exactly the keys of the map, and ENTER adds a missing key
        unless the table is as full as it may get. Entries that are there do not change. */
    method Search(item: Entry, act: Action) returns (r: Result)
      requires Valid()
      modifies this`used, e
      ensures Valid()
      ensures item.key in old(Map()) ==> r.Slot? && KeyAt(e[..], r.i, item.key) && e[..] == old(e[..])
      ensures item.key !in old(Map()) && act == FIND ==> r == NotThere && e[..] == old(e[..])
      ensures item.key !in old(Map()) && act == ENTER && old(used) == mask - mask / 4 ==>
          r == Full && e[..] == old(e[..])
      ensures item.key !in old(Map()) && act == ENTER && old(used) < mask - mask / 4 ==>
                r.Slot? && KeyAt(e[..], r.i, item.key) && Map() == old(Map())[item.key := item.data]
                    && used == old(used) + 1
    {
      hide Contents; hide Pow; hide Occupied; hide WellFormed; hide Passed; hide Filled; hide Probe;
      ghost var s := e[..];
      var i, k := Lookup(item.key);
      if e[i].Some? { return Slot(i); }
      if act == FIND || used + 1 > mask - mask / 4 {
        r := if act == FIND then NotThere else Full;
        return;
      }
      InsertedAt(s, hash, item, k, i);
      e[i] := Some(item);
      assert e[..] == s[i := Some(item)];
      used := used + 1;
      r := Slot(i);
    }

    /** The probing loop: the key's slot, or the free slot that shows it is missing. */
    method Lookup(key: string) returns (i: nat, ghost k: nat)
      requires Valid()
      ensures i < e.Length && k < e.Length
      ensures e[i].Some? ==> KeyAt(e[..], i, key) && key in Map()
      ensures e[i].None? ==> key !in Map() && Passed(e[..], hash(key), key, k) && Probe(hash(key), k, e.Length) == i
    {
      hide Contents; hide Pow; hide Occupied; hide WellFormed; hide Passed; hide Probe;
      ghost var s := e[..];
      var h := hash(key);
      i := h % (mask + 1);
      var step: nat := 1;
      FirstProbe(h, e.Length);
      NothingPassed(s, h, key);
      DistinctKeys(s, hash);
      while e[i].Some?
        invariant i < e.Length && 1 <= step <= e.Length && i == Probe(h, step - 1, e.Length)
            && Passed(s, h, key, step - 1)
        decreases e.Length - step
      {
        assert s[i] == e[i];
        if e[i].value.key == key {
          Listed(s, i);
          k := 0;
          return;
        }
        PassedOn(s, h, key, step - 1);
        if step == e.Length { Crowded(s, h, key, n, used, mask); }
        ProbeStep(h, step - 1, e.Length);
        i := (i + step) % (mask + 1);
        step := step + 1;
      }
      assert s[i] == e[i];
      k := step - 1;
      NotPresent(s, hash, key, k);
    }
  }

  lemma NothingPassed(e: Slots, h: nat, key: string)
    requires |e| > 0
    ensures Passed(e, h, key, 0)
  {
  }

  lemma DistinctKeys(e: Slots, hash: string -> nat)
    requires WellFormed(e, hash)
    ensures Distinct(e)
  {
  }

  lemma InsertedAt(e: Slots, hash: string -> nat, item: Entry, k: nat, i: nat)
    requires WellFormed(e, hash) && k < |e| && Passed(e, hash(item.key), item.key, k)
        && i == Probe(hash(item.key), k, |e|) && e[i].None?
    ensures var e' := e[i := Some(item)];
            && WellFormed(e', hash) && Contents(e') == Contents(e)[item.key := item.data]
            && |Occupied(e')| == |Occupied(e)| + 1
  {
    hide Contents; hide WellFormed; hide Passed; hide Probe;
    Inserted(e, hash, item, k);
  }

  lemma EightIsPower()
    ensures Pow2(3) == 8
  {
  }

  /** With at least nel + nel / 3 + 1 slots, a quarter kept free leaves nel. */
  lemma QuarterFree(nel: nat, size: nat)
    requires size >= nel + nel / 3 + 1
    ensures nel <= size - 1 - (size - 1) / 4
  {
  }

  lemma EmptyTable(e: Slots, hash: string -> nat)
    requires forall i | 0 <= i < |e| :: e[i].None?
    ensures WellFormed(e, hash) && Contents(e) == map[] && Occupied(e) == {}
  {
    EmptyContents(e);
  }

  lemma {:induction false} EmptyContents(e: Slots)
    requires forall i | 0 <= i < |e| :: e[i].None?
    ensures Contents(e) == map[]
    decreases |e|
  {
    if e != [] { EmptyContents(e[..|e| - 1]); }
  }

  lemma FirstProbe(h: nat, size: nat)
    requires size > 0
    ensures Probe(h, 0, size) == h % size
  {
  }

  lemma PassedOn(e: Slots, h: nat, key: string, k: nat)
    requires |e| > 0 && Passed(e, h, key, k) && Filled(e, h, k) && e[Probe(h, k, |e|)].value.key != key
    ensures Passed(e, h, key, k + 1)
  {
  }

  /** The quarter kept free makes going round impossible. */
  lemma Crowded(e: Slots, h: nat, key: string, n: nat, used: nat, mask: nat)
    requires |e| == Pow2(n) && Passed(e, h, key, |e|) && used == |Occupied(e)|
    ensures used > mask - mask / 4 || mask != |e| - 1
  {
    SearchEnds(e, h, key, n);
  }

  predicate DistinctItems(items: seq<Entry>) {
    forall i: nat, j: nat | i < j < |items| :: items[i].key != items[j].key
  }

  /** A table made for nel keys takes them all before it is full. */
  method EnterAll(items: seq<Entry>, hash: string -> nat) returns (t: Table, full: bool)
    requires DistinctItems(items)
    ensures !full && t.Valid() && t.Map().Keys == (set i: nat | i < |items| :: items[i].key)
    ensures forall i: nat | i < |items| :: items[i].key in t.Map() && t.Map()[items[i].key] == items[i].data
  {
    hide Contents; hide WellFormed; hide Pow; hide Occupied;
    t := new Table(|items|, hash);
    full := false;
    for k := 0 to |items|
      invariant fresh(t) && fresh(t.e) && t.Valid() && !full && t.used == k && |items| <= t.mask - t.mask / 4
      invariant t.Map().Keys == (set i: nat | i < k :: items[i].key)
      invariant forall i: nat | i < k :: items[i].key in t.Map() && t.Map()[items[i].key] == items[i].data
    {
      ghost var m := t.Map();
      assert items[k].key !in m;
      var r := t.Search(items[k], ENTER);
      full := r == Full;
      assert t.Map() == m[items[k].key := items[k].data];
    }
  }
}
