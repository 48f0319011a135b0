/** The trees of `tsearch` and `tdelete` (src/search.c) as values: rotation, balancing, insertion and
    deletion, for any comparison that is a total preorder. Nodes keep their identity. */
module AvlTree {
  import opened Powers
  import opened Ordering

  /** A node: its address, key and stored height, and its subtrees. */
  datatype Tree = Nil | Node(l: Tree, id: nat, key: int, h: int, r: Tree)

  function Height(t: Tree): int { if t.Nil? then 0 else t.h }

  function Max(a: int, b: int): int { if a > b then a else b }

  function Keys(t: Tree): set<int> { if t.Nil? then {} else Keys(t.l) + {t.key} + Keys(t.r) }

  function Ids(t: Tree): set<nat> { if t.Nil? then {} else Ids(t.l) + {t.id} + Ids(t.r) }

  /** Which node has which key. */
  function Pairs(t: Tree): set<(nat, int)> { if t.Nil? then {} else Pairs(t.l) + {(t.id, t.key)} + Pairs(t.r) }

  function Size(t: Tree): nat { if t.Nil? then 0 else Size(t.l) + 1 + Size(t.r) }

  ghost predicate AllBelow(cmp: Compare, t: Tree, k: int) { forall x | x in Keys(t) :: cmp(x, k) < 0 }

  ghost predicate AllAbove(cmp: Compare, t: Tree, k: int) { forall x | x in Keys(t) :: cmp(k, x) < 0 }

  ghost predicate Ordered(cmp: Compare, t: Tree) {
    t.Node? ==> Ordered(cmp, t.l) && Ordered(cmp, t.r) && AllBelow(cmp, t.l, t.key) && AllAbove(cmp, t.r, t.key)
  }

  /** Stored heights are exact and neighbours differ by at most one. */
  predicate Avl(t: Tree) {
    t.Node? ==> Avl(t.l) && Avl(t.r) && t.h == 1 + Max(Height(t.l), Height(t.r)) && -1 <= Height(t.l) - Height(t.r) <= 1
  }

  /** The length of the longest way down. */
  function Depth(t: Tree): nat { if t.Nil? then 0 else 1 + if Depth(t.l) > Depth(t.r) then Depth(t.l) else Depth(t.r) }

  lemma {:induction false} HeightIsDepth(t: Tree)
    requires Avl(t)
    ensures Height(t) == Depth(t)
  {
    if t.Node? { HeightIsDepth(t.l); HeightIsDepth(t.r); }
  }

  // ---- rotation and balancing ----

  function Fix(t: Tree): Tree
    requires t.Node?
  {
    t.(h := 1 + Max(Height(t.l), Height(t.r)))
  }

  /** `rot`: the child on the side other than dir becomes the root. */
  function Rot(t: Tree, right: bool): Tree
    requires t.Node? && (if right then t.l.Node? else t.r.Node?)
  {
    if right then Fix(t.l.(r := Fix(t.(l := t.l.r)))) else Fix(t.r.(l := Fix(t.(r := t.r.l))))
  }

  function Balance(t: Tree): Tree
    requires t.Node? && (Height(t.l) - Height(t.r) > 1 ==> t.l.Node? && (Height(t.l.r) > Height(t.l.l) ==> t.l.r.Node?))
    requires Height(t.r) - Height(t.l) > 1 ==> t.r.Node? && (Height(t.r.l) > Height(t.r.r) ==> t.r.l.Node?)
  {
    if Height(t.l) - Height(t.r) > 1 then
      Rot(if Height(t.l.r) > Height(t.l.l) then t.(l := Rot(t.l, false)) else t, true)
    else if Height(t.r) - Height(t.l) > 1 then
      Rot(if Height(t.r.l) > Height(t.r.r) then t.(r := Rot(t.r, true)) else t, false)
    else Fix(t)
  }

  /** Both subtrees are balanced and their heights differ by at most two. */
  predicate Nearly(t: Tree) { t.Node? && Avl(t.l) && Avl(t.r) && -2 <= Height(t.l) - Height(t.r) <= 2 }

  lemma {:induction false} AvlHeight(t: Tree)
    requires Avl(t)
    ensures Height(t) >= 0 && (Height(t) > 0 <==> t.Node?)
  {
    if t.Node? { AvlHeight(t.l); AvlHeight(t.r); }
  }

  lemma NearlyBalances(t: Tree)
    requires Nearly(t)
    ensures Height(t.l) - Height(t.r) > 1 ==> t.l.Node? && (Height(t.l.r) > Height(t.l.l) ==> t.l.r.Node?)
    ensures Height(t.r) - Height(t.l) > 1 ==> t.r.Node? && (Height(t.r.l) > Height(t.r.r) ==> t.r.l.Node?)
  {
    AvlHeight(t.l); AvlHeight(t.r);
    if t.l.Node? { AvlHeight(t.l.l); AvlHeight(t.l.r); }
    if t.r.Node? { AvlHeight(t.r.l); AvlHeight(t.r.r); }
  }

  function BalanceNearly(t: Tree): Tree
    requires Nearly(t)
  {
    NearlyBalances(t);
    Balance(t)
  }

  /** Balancing keeps the nodes. */
  lemma BalanceKeeps(t: Tree)
    requires Nearly(t)
    ensures var b := BalanceNearly(t);
            b.Node? && Keys(b) == Keys(t) && Ids(b) == Ids(t) && Pairs(b) == Pairs(t) && Size(b) == Size(t)
  {
    hide Avl;
    NearlyBalances(t);
    if Height(t.l) - Height(t.r) > 1 {
      if Height(t.l.r) > Height(t.l.l) {
        RotKeys(t.l, false);
        RotKeys(t.(l := Rot(t.l, false)), true);
      } else {
        RotKeys(t, true);
      }
    } else if Height(t.r) - Height(t.l) > 1 {
      if Height(t.r.l) > Height(t.r.r) {
        RotKeys(t.r, true);
        RotKeys(t.(r := Rot(t.r, true)), false);
      } else {
        RotKeys(t, false);
      }
    }
  }

  /** Balancing balances, and gives the height without it or one less. */
  lemma BalanceWorks(t: Tree)
    requires Nearly(t)
    ensures var b := BalanceNearly(t);
            && b.Node? && Avl(b)
            && var m := 1 + Max(Height(t.l), Height(t.r));
               m - 1 <= Height(b) <= m && (-1 <= Height(t.l) - Height(t.r) <= 1 ==> Height(b) == m)
  {
    hide Keys; hide Ids; hide Size;
    NearlyBalances(t);
    AvlHeight(t.l); AvlHeight(t.r);
    if Height(t.l) - Height(t.r) > 1 { LeftHeavy(t); } else if Height(t.r) - Height(t.l) > 1 { RightHeavy(t); }
  }

  lemma LeftHeavy(t: Tree)
    requires Nearly(t) && Height(t.l) - Height(t.r) == 2
    ensures var b := BalanceNearly(t); b.Node? && Avl(b) && Height(t.l) <= Height(b) <= Height(t.l) + 1
  {
    hide Keys; hide Ids; hide Size;
    NearlyBalances(t);
    assert Avl(t.l.l) && Avl(t.l.r);
    if Height(t.l.r) > Height(t.l.l) {
      var n, a := t.l.r, 1 + Height(t.r);
      assert Avl(n.l) && Avl(n.r);
      DoubleShape(t.l.l, n.l, n.r, t.r, t.l.id, t.l.key, n.id, n.key, t.id, t.key);
      assert Balance(t) == Node(Node(t.l.l, t.l.id, t.l.key, a, n.l), n.id, n.key, a + 1,
          Node(n.r, t.id, t.key, a, t.r));
    }
  }

  lemma RightHeavy(t: Tree)
    requires Nearly(t) && Height(t.r) - Height(t.l) == 2
    ensures var b := BalanceNearly(t); b.Node? && Avl(b) && Height(t.r) <= Height(b) <= Height(t.r) + 1
  {
    hide Keys; hide Ids; hide Size;
    NearlyBalances(t);
    assert Avl(t.r.l) && Avl(t.r.r);
    if Height(t.r.l) > Height(t.r.r) {
      var n, a := t.r.l, 1 + Height(t.l);
      assert Avl(n.l) && Avl(n.r);
      DoubleShape(t.l, n.l, n.r, t.r.r, t.id, t.key, n.id, n.key, t.r.id, t.r.key);
      assert Balance(t) == Node(Node(t.l, t.id, t.key, a, n.l), n.id, n.key, a + 1,
          Node(n.r, t.r.id, t.r.key, a, t.r.r));
    }
  }

  /** After a double rotation the four outer trees stand side by side. */
  lemma DoubleShape(a: Tree, b: Tree, c: Tree, d: Tree, i: nat, k: int, j: nat, m: int, n: nat, h: int)
    requires Avl(a) && Avl(b) && Avl(c) && Avl(d) && Height(a) == Height(d)
    requires Max(Height(b), Height(c)) == Height(a) && -1 <= Height(b) - Height(c) <= 1
    ensures Avl(Node(Node(a, i, k, 1 + Height(a), b), j, m, 2 + Height(a), Node(c, n, h, 1 + Height(a), d)))
  {
    hide Keys; hide Ids; hide Size;
  }

  /** A subtree replaced by one with the same keys. */
  lemma OrderedSame(cmp: Compare, t: Tree, u: Tree)
    requires t.Node? && u.Node? && Ordered(cmp, t) && u.key == t.key && Keys(u.l) == Keys(t.l) && Keys(u.r) == Keys(t.r)
    requires Ordered(cmp, u.l) && Ordered(cmp, u.r)
    ensures Ordered(cmp, u)
  {
    hide Keys;
  }

  lemma BalanceOrdered(cmp: Compare, t: Tree)
    requires Preorder(cmp) && Nearly(t) && Ordered(cmp, t)
    ensures Ordered(cmp, BalanceNearly(t))
  {
    hide Keys; hide Avl; hide Rot; hide Preorder; hide AllBelow; hide AllAbove;
    NearlyBalances(t);
    if Height(t.l) - Height(t.r) > 1 {
      if Height(t.l.r) > Height(t.l.l) {
        var u := t.(l := Rot(t.l, false));
        RotOrdered(cmp, t.l, false);
        RotKeys(t.l, false);
        OrderedSame(cmp, t, u);
        RotOrdered(cmp, u, true);
      } else {
        RotOrdered(cmp, t, true);
      }
    } else if Height(t.r) - Height(t.l) > 1 {
      if Height(t.r.l) > Height(t.r.r) {
        var u := t.(r := Rot(t.r, true));
        RotOrdered(cmp, t.r, true);
        RotKeys(t.r, true);
        OrderedSame(cmp, t, u);
        RotOrdered(cmp, u, false);
      } else {
        RotOrdered(cmp, t, false);
      }
    } else {
      OrderedSame(cmp, t, Fix(t));
    }
  }

  lemma RotKeys(t: Tree, right: bool)
    requires t.Node? && (if right then t.l.Node? else t.r.Node?)
    ensures Rot(t, right).Node? && Keys(Rot(t, right)) == Keys(t) && Ids(Rot(t, right)) == Ids(t)
    ensures Pairs(Rot(t, right)) == Pairs(t) && Size(Rot(t, right)) == Size(t)
  {
  }

  lemma RotOrdered(cmp: Compare, t: Tree, right: bool)
    requires Preorder(cmp) && t.Node? && (if right then t.l.Node? else t.r.Node?) && Ordered(cmp, t)
    ensures Ordered(cmp, Rot(t, right))
  {
    if right {
      assert t.l.key in Keys(t.l);
      forall x | x in Keys(t.r) ensures cmp(t.l.key, x) < 0 { LessTrans(cmp, t.l.key, t.key, x); }
      forall x | x in Keys(t.l.r) ensures cmp(x, t.key) < 0 { assert x in Keys(t.l); }
    } else {
      assert t.r.key in Keys(t.r);
      forall x | x in Keys(t.l) ensures cmp(x, t.r.key) < 0 { LessTrans(cmp, x, t.key, t.r.key); }
      forall x | x in Keys(t.r.l) ensures cmp(t.key, x) < 0 { assert x in Keys(t.r); }
    }
  }

  // ---- searching, inserting, deleting ----

  /** `balance`, where the code may call it. */
  function Rebalance(t: Tree): (b: Tree)
    requires t.Node?
  {
    if Nearly(t) then BalanceNearly(t) else t
  }

  lemma {:induction false} BalancedStays(t: Tree)
    requires t.Node? && Avl(t)
    ensures Rebalance(t) == t
  {
  }

  /** A key that compares equal. */
  ghost predicate Member(cmp: Compare, keys: set<int>, k: int) { exists x :: x in keys && cmp(k, x) == 0 }

  function Insert(cmp: Compare, t: Tree, k: int, id: nat): Tree {
    if t.Nil? then Node(Nil, id, k, 1, Nil)
    else if cmp(k, t.key) == 0 then t
    else if cmp(k, t.key) < 0 then Rebalance(t.(l := Insert(cmp, t.l, k, id)))
    else Rebalance(t.(r := Insert(cmp, t.r, k, id)))
  }

  lemma {:induction false} InsertAvl(cmp: Compare, t: Tree, k: int, id: nat)
    requires Avl(t)
    ensures var u := Insert(cmp, t, k, id); u.Node? && Avl(u) && Height(t) <= Height(u) <= Height(t) + 1
  {
    hide Keys; hide Ids; hide Size; hide BalanceNearly;
    if t.Nil? {
    } else if cmp(k, t.key) < 0 {
      InsertAvl(cmp, t.l, k, id);
      BalanceWorks(t.(l := Insert(cmp, t.l, k, id)));
    } else if cmp(k, t.key) > 0 {
      InsertAvl(cmp, t.r, k, id);
      BalanceWorks(t.(r := Insert(cmp, t.r, k, id)));
    }
  }

  /** A new key is with the new node. */
  lemma {:induction false} InsertPair(cmp: Compare, t: Tree, k: int, id: nat)
    requires Preorder(cmp) && Avl(t) && Ordered(cmp, t) && !Member(cmp, Keys(t), k)
    ensures (id, k) in Pairs(Insert(cmp, t, k, id))
  {
    hide BalanceNearly; hide Preorder;
    if t.Node? {
      MemberSide(cmp, t, k);
      if cmp(k, t.key) < 0 {
        InsertAvl(cmp, t.l, k, id); InsertPair(cmp, t.l, k, id);
        BalanceKeeps(t.(l := Insert(cmp, t.l, k, id)));
      } else if cmp(k, t.key) > 0 {
        InsertAvl(cmp, t.r, k, id); InsertPair(cmp, t.r, k, id);
        BalanceKeeps(t.(r := Insert(cmp, t.r, k, id)));
      }
    }
  }

  /** Keys on the other side of the root do not compare equal. */
  lemma MemberSide(cmp: Compare, t: Tree, k: int)
    requires Preorder(cmp) && t.Node? && Ordered(cmp, t)
    ensures cmp(k, t.key) == 0 ==> Member(cmp, Keys(t), k)
    ensures cmp(k, t.key) < 0 ==> (Member(cmp, Keys(t), k) <==> Member(cmp, Keys(t.l), k))
    ensures cmp(k, t.key) > 0 ==> (Member(cmp, Keys(t), k) <==> Member(cmp, Keys(t.r), k))
  {
    assert t.key in Keys(t);
    if cmp(k, t.key) < 0 {
      forall x | x in Keys(t.r) ensures cmp(k, x) != 0 { LessTrans(cmp, k, t.key, x); }
      if Member(cmp, Keys(t.l), k) { var x :| x in Keys(t.l) && cmp(k, x) == 0; assert x in Keys(t); }
    } else if cmp(k, t.key) > 0 {
      assert cmp(t.key, k) < 0;
      forall x | x in Keys(t.l) ensures cmp(k, x) != 0 { LessTrans(cmp, x, t.key, k); assert cmp(k, x) > 0; }
      if Member(cmp, Keys(t.r), k) { var x :| x in Keys(t.r) && cmp(k, x) == 0; assert x in Keys(t); }
    }
  }

  lemma {:induction false} InsertKeys(cmp: Compare, t: Tree, k: int, id: nat)
    requires Preorder(cmp) && Avl(t) && Ordered(cmp, t)
    ensures var u := Insert(cmp, t, k, id);
            && Ordered(cmp, u)
            && (Member(cmp, Keys(t), k) ==> u == t)
            && (!Member(cmp, Keys(t), k) ==>
                Keys(u) == Keys(t) + {k} && Ids(u) == Ids(t) + {id} && Size(u) == Size(t) + 1)
  {
    hide BalanceNearly; hide Preorder; hide Member; hide Rebalance;
    if t.Nil? {
      NoMember(cmp, k);
    } else {
      MemberSide(cmp, t, k);
      BalancedStays(t);
      if cmp(k, t.key) < 0 {
        InsertAvl(cmp, t.l, k, id); InsertKeys(cmp, t.l, k, id);
        if !Member(cmp, Keys(t), k) { InsertLeft(cmp, t, Insert(cmp, t.l, k, id), k, id); }
      } else if cmp(k, t.key) > 0 {
        InsertAvl(cmp, t.r, k, id); InsertKeys(cmp, t.r, k, id);
        MoreIsLess(cmp, k, t.key);
        if !Member(cmp, Keys(t), k) { InsertRight(cmp, t, Insert(cmp, t.r, k, id), k, id); }
      }
    }
  }

  lemma NoMember(cmp: Compare, k: int)
    ensures !Member(cmp, {}, k)
  {
  }

  lemma InsertLeft(cmp: Compare, t: Tree, l: Tree, k: int, id: nat)
    requires Preorder(cmp) && t.Node? && Avl(t) && Ordered(cmp, t) && cmp(k, t.key) < 0
    requires Avl(l) && Ordered(cmp, l) && Height(t.l) <= Height(l) <= Height(t.l) + 1
    requires Keys(l) == Keys(t.l) + {k} && Ids(l) == Ids(t.l) + {id} && Size(l) == Size(t.l) + 1
    ensures var u := Rebalance(t.(l := l));
            Ordered(cmp, u) && Keys(u) == Keys(t) + {k} && Ids(u) == Ids(t) + {id} && Size(u) == Size(t) + 1
  {
    hide Preorder; hide Rebalance;
    InsertSide(cmp, t.(l := l));
  }

  lemma InsertRight(cmp: Compare, t: Tree, r: Tree, k: int, id: nat)
    requires Preorder(cmp) && t.Node? && Avl(t) && Ordered(cmp, t) && cmp(t.key, k) < 0
    requires Avl(r) && Ordered(cmp, r) && Height(t.r) <= Height(r) <= Height(t.r) + 1
    requires Keys(r) == Keys(t.r) + {k} && Ids(r) == Ids(t.r) + {id} && Size(r) == Size(t.r) + 1
    ensures var u := Rebalance(t.(r := r));
            Ordered(cmp, u) && Keys(u) == Keys(t) + {k} && Ids(u) == Ids(t) + {id} && Size(u) == Size(t) + 1
  {
    hide Preorder; hide Rebalance;
    InsertSide(cmp, t.(r := r));
  }

  /** A node over changed subtrees, rebalanced. */
  lemma InsertSide(cmp: Compare, v: Tree)
    requires Preorder(cmp) && v.Node? && Nearly(v) && Ordered(cmp, v)
    ensures Ordered(cmp, Rebalance(v)) && Keys(Rebalance(v)) == Keys(v) && Ids(Rebalance(v)) == Ids(v)
        && Size(Rebalance(v)) == Size(v)
  {
    BalanceKeeps(v);
    BalanceOrdered(cmp, v);
  }

  /** The leftmost node, and the tree without it. */
  function PopMin(t: Tree): (Tree, Tree)
    requires t.Node?
  {
    if t.l.Nil? then (t, t.r) else var (m, l) := PopMin(t.l); (m, Rebalance(t.(l := l)))
  }

  lemma {:induction false} PopMinAvl(t: Tree)
    requires t.Node? && Avl(t)
    ensures var (m, u) := PopMin(t); m.Node? && Avl(u) && Height(t) - 1 <= Height(u) <= Height(t)
  {
    hide Keys; hide Ids; hide Size; hide BalanceNearly;
    AvlHeight(t); AvlHeight(t.l); AvlHeight(t.r);
    if t.l.Node? {
      PopMinAvl(t.l);
      BalanceWorks(t.(l := PopMin(t.l).1));
    }
  }

  lemma {:induction false} PopMinKeys(cmp: Compare, t: Tree)
    requires Preorder(cmp) && t.Node? && Avl(t) && Ordered(cmp, t)
    ensures var (m, u) := PopMin(t);
            && m.Node? && Ordered(cmp, u) && Keys(t) == Keys(u) + {m.key} && AllAbove(cmp, u, m.key)
            && Ids(t) == Ids(u) + {m.id} && Size(t) == Size(u) + 1
  {
    hide BalanceNearly; hide Preorder;
    if t.l.Node? {
      PopMinAvl(t.l); PopMinKeys(cmp, t.l);
      var (m, l) := PopMin(t.l);
      var v := t.(l := l);
      assert m.key in Keys(t.l);
      forall x | x in Keys(t.r) ensures cmp(m.key, x) < 0 { LessTrans(cmp, m.key, t.key, x); }
      InsertSide(cmp, v);
    }
  }

  function Delete(cmp: Compare, t: Tree, k: int): Tree {
    if t.Nil? then Nil
    else if cmp(k, t.key) < 0 then Rebalance(t.(l := Delete(cmp, t.l, k)))
    else if cmp(k, t.key) > 0 then Rebalance(t.(r := Delete(cmp, t.r, k)))
    else if t.l.Nil? then t.r
    else if t.r.Nil? then t.l
    else var (m, r) := PopMin(t.r); if m.Node? then Rebalance(Node(t.l, m.id, m.key, m.h, r)) else t
  }

  lemma {:induction false} DeleteAvl(cmp: Compare, t: Tree, k: int)
    requires Avl(t)
    ensures var u := Delete(cmp, t, k); Avl(u) && Height(t) - 1 <= Height(u) <= Height(t)
  {
    hide Keys; hide Ids; hide Size; hide BalanceNearly; hide PopMin;
    AvlHeight(t);
    if t.Node? {
      AvlHeight(t.l); AvlHeight(t.r);
      if cmp(k, t.key) < 0 {
        DeleteAvl(cmp, t.l, k);
        BalanceWorks(t.(l := Delete(cmp, t.l, k)));
      } else if cmp(k, t.key) > 0 {
        DeleteAvl(cmp, t.r, k);
        BalanceWorks(t.(r := Delete(cmp, t.r, k)));
      } else if t.l.Node? && t.r.Node? {
        PopMinAvl(t.r);
        var (m, r) := PopMin(t.r);
        BalanceWorks(Node(t.l, m.id, m.key, m.h, r));
      }
    }
  }

  /** The keys that do not compare equal to k. */
  function Without(cmp: Compare, keys: set<int>, k: int): set<int> { set x | x in keys && cmp(k, x) != 0 }

  lemma WithoutSide(cmp: Compare, t: Tree, k: int)
    requires Preorder(cmp) && t.Node? && Ordered(cmp, t)
    ensures cmp(k, t.key) < 0 ==> Without(cmp, Keys(t), k) == Without(cmp, Keys(t.l), k) + {t.key} + Keys(t.r)
    ensures cmp(k, t.key) > 0 ==> Without(cmp, Keys(t), k) == Keys(t.l) + {t.key} + Without(cmp, Keys(t.r), k)
    ensures cmp(k, t.key) == 0 ==> Without(cmp, Keys(t), k) == Keys(t.l) + Keys(t.r)
  {
    hide Preorder; hide Ordered; hide Without;
    WithoutParts(cmp, Keys(t.l), t.key, Keys(t.r), k);
    if cmp(k, t.key) <= 0 { RightDiffer(cmp, t, k); WithoutAll(cmp, Keys(t.r), k); }
    if cmp(k, t.key) >= 0 { LeftDiffer(cmp, t, k); WithoutAll(cmp, Keys(t.l), k); }
  }

  lemma WithoutParts(cmp: Compare, a: set<int>, x: int, b: set<int>, k: int)
    ensures Without(cmp, a + {x} + b, k)
        == Without(cmp, a, k) + (if cmp(k, x) != 0 then {x} else {}) + Without(cmp, b, k)
  {
  }

  lemma WithoutAll(cmp: Compare, a: set<int>, k: int)
    requires forall x | x in a :: cmp(k, x) != 0
    ensures Without(cmp, a, k) == a
  {
    forall x | x in a ensures x in Without(cmp, a, k) { assert cmp(k, x) != 0; }
  }

  lemma RightDiffer(cmp: Compare, t: Tree, k: int)
    requires Preorder(cmp) && t.Node? && Ordered(cmp, t) && cmp(k, t.key) <= 0
    ensures forall x | x in Keys(t.r) :: cmp(k, x) != 0
  {
    forall x | x in Keys(t.r) ensures cmp(k, x) != 0 { LessTrans(cmp, k, t.key, x); }
  }

  lemma LeftDiffer(cmp: Compare, t: Tree, k: int)
    requires Preorder(cmp) && t.Node? && Ordered(cmp, t) && cmp(k, t.key) >= 0
    ensures forall x | x in Keys(t.l) :: cmp(k, x) != 0
  {
    MoreIsLess(cmp, t.key, k);
    forall x | x in Keys(t.l) ensures cmp(k, x) != 0 { LessTrans(cmp, x, t.key, k); MoreIsLess(cmp, k, x); }
  }

  lemma {:induction false} DeleteKeys(cmp: Compare, t: Tree, k: int)
    requires Preorder(cmp) && Avl(t) && Ordered(cmp, t)
    ensures var u := Delete(cmp, t, k); Ordered(cmp, u) && Keys(u) == Without(cmp, Keys(t), k) && Ids(u) <= Ids(t)
  {
    hide BalanceNearly; hide Preorder; hide PopMin; hide Without;
    if t.Nil? {
      WithoutNone(cmp, k);
    } else {
      WithoutSide(cmp, t, k);
      MoreIsLess(cmp, k, t.key);
      if cmp(k, t.key) < 0 {
        DeleteAvl(cmp, t.l, k); DeleteKeys(cmp, t.l, k);
        WithoutSubset(cmp, Keys(t.l), k);
        InsertSide(cmp, t.(l := Delete(cmp, t.l, k)));
      } else if cmp(k, t.key) > 0 {
        DeleteAvl(cmp, t.r, k); DeleteKeys(cmp, t.r, k);
        WithoutSubset(cmp, Keys(t.r), k);
        InsertSide(cmp, t.(r := Delete(cmp, t.r, k)));
      } else if t.l.Node? && t.r.Node? {
        DeleteRoot(cmp, t);
      }
    }
  }

  lemma WithoutNone(cmp: Compare, k: int)
    ensures Without(cmp, {}, k) == {}
  {
  }

  lemma WithoutSubset(cmp: Compare, keys: set<int>, k: int)
    ensures Without(cmp, keys, k) <= keys
  {
  }

  /** Replacing a node by its successor. */
  lemma DeleteRoot(cmp: Compare, t: Tree)
    requires Preorder(cmp) && t.Node? && t.l.Node? && t.r.Node? && Avl(t) && Ordered(cmp, t)
    ensures var (m, r) := PopMin(t.r); m.Node? && var u := Rebalance(Node(t.l, m.id, m.key, m.h, r));
            Ordered(cmp, u) && Keys(u) == Keys(t.l) + Keys(t.r) && Ids(u) <= Ids(t)
  {
    hide BalanceNearly; hide Preorder; hide PopMin;
    PopMinAvl(t.r); PopMinKeys(cmp, t.r);
    var (m, r) := PopMin(t.r);
    assert m.key in Keys(t.r);
    forall x | x in Keys(t.l) ensures cmp(x, m.key) < 0 { LessTrans(cmp, x, t.key, m.key); }
    InsertSide(cmp, Node(t.l, m.id, m.key, m.h, r));
  }

  // ---- any sequence of operations ----

  datatype Op = Add(key: int, id: nat) | Remove(key: int)

  /** The tree after the operations, the last one last. */
  function After(cmp: Compare, ops: seq<Op>): Tree {
    if ops == [] then Nil else
      var t := After(cmp, ops[..|ops| - 1]);
      match ops[|ops| - 1]
      case Add(k, id) => Insert(cmp, t, k, id)
      case Remove(k) => Delete(cmp, t, k)
  }

  /** The keys that should then be there. */
  ghost function Expected(cmp: Compare, ops: seq<Op>): set<int> {
    if ops == [] then {} else
      var s := Expected(cmp, ops[..|ops| - 1]);
      match ops[|ops| - 1]
      case Add(k, _) => if Member(cmp, s, k) then s else s + {k}
      case Remove(k) => Without(cmp, s, k)
  }

  /** After any sequence of insertions and deletions the tree is ordered, balanced with exact heights,
      and holds the keys it should. */
  lemma {:induction false} AlwaysAvl(cmp: Compare, ops: seq<Op>)
    requires Preorder(cmp)
    ensures var t := After(cmp, ops); Avl(t) && Ordered(cmp, t) && Keys(t) == Expected(cmp, ops)
    decreases |ops|
  {
    hide Avl; hide Ordered; hide Insert; hide Delete; hide Preorder; hide Member; hide Without;
    if ops == [] {
      EmptyTree(cmp);
    } else {
      AlwaysAvl(cmp, ops[..|ops| - 1]);
      var t := After(cmp, ops[..|ops| - 1]);
      match ops[|ops| - 1]
      case Add(k, id) => InsertAvl(cmp, t, k, id); InsertKeys(cmp, t, k, id);
      case Remove(k) => DeleteAvl(cmp, t, k); DeleteKeys(cmp, t, k);
    }
  }

  lemma EmptyTree(cmp: Compare)
    ensures Avl(Nil) && Ordered(cmp, Nil) && Keys(Nil) == {}
  {
  }

  // ---- how tall a tree can be ----

  /** The fewest nodes a balanced tree of height h has. */
  function Fewest(h: nat): nat { if h == 0 then 0 else if h == 1 then 1 else 1 + Fewest(h - 1) + Fewest(h - 2) }

  lemma {:induction false} FewestMono(h: nat)
    ensures Fewest(h) <= Fewest(h + 1) <= 2 * Fewest(h) + 1
  {
    if h > 0 { FewestMono(h - 1); }
  }

  lemma FewestIs(h: nat)
    ensures Fewest(h) == if h == 0 then 0 else if h == 1 then 1 else 1 + Fewest(h - 1) + Fewest(h - 2)
  {
  }

  lemma {:induction false} AtLeastFewest(t: Tree)
    requires Avl(t)
    ensures Height(t) >= 0 && Size(t) >= Fewest(Height(t))
  {
    hide Fewest;
    AvlHeight(t);
    FewestIs(0); FewestIs(1);
    if t.Node? {
      AtLeastFewest(t.l); AtLeastFewest(t.r);
      AvlHeight(t.l); AvlHeight(t.r);
      if t.h >= 2 {
        FewestIs(t.h);
        FewestMono(t.h - 2);
      }
    }
  }

  /** Three levels quadruple the nodes. */
  lemma FewestFour(h: nat)
    ensures Fewest(h + 3) + 1 >= 4 * (Fewest(h) + 1)
  {
    if h > 0 {
      FewestMono(h - 1);
      assert Fewest(h + 3) == 1 + Fewest(h + 2) + Fewest(h + 1);
      assert Fewest(h + 2) == 1 + Fewest(h + 1) + Fewest(h);
      assert Fewest(h + 1) == 1 + Fewest(h) + Fewest(h - 1);
    } else {
      assert Fewest(2) == 2;
      assert Fewest(3) == 4;
    }
  }

  lemma {:induction false} FewestPower(j: nat)
    ensures Fewest(3 * j) + 1 >= Pow(4, j)
  {
    if j > 0 {
      FewestPower(j - 1);
      FewestFour(3 * (j - 1));
    }
  }

  lemma {:induction false} FewestUp(a: nat, b: nat)
    requires a <= b
    ensures Fewest(a) <= Fewest(b)
  {
    if a < b {
      FewestUp(a, b - 1);
      FewestMono(b - 1);
    }
  }

  const MAXH := 100

  /** With fewer than 2^64 nodes no way down is longer than the path arrays. */
  lemma PathFits(t: Tree)
    requires Avl(t) && Size(t) < Pow2(64)
    ensures Depth(t) < MAXH
  {
    hide Pow; hide Fewest; hide Avl; hide Depth; hide Size;
    HeightIsDepth(t);
    AtLeastFewest(t);
    if Height(t) >= MAXH {
      FewestUp(99, Height(t));
      FewestPower(33);
      FourIsTwo(33);
      PowMono(2, 64, 65);
      HalfPower(66);
    }
  }

  lemma FourIsTwo(j: nat)
    ensures Pow(4, j) == Pow2(2 * j)
  {
    assert Pow2(2) == 4;
    PowPow(2, 2, j);
  }
}
