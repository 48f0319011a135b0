/** `tsearch`, `tdelete` and `tfind` of src/search.c in place: nodes in memory, relinked through saved
    slots, proved to do to the linked nodes what AvlTree does to values. */
module AvlHeap {
  import opened Powers
  import opened Ordering
  import opened AvlTree

  /** A node in memory: key, left and right child (0 for none), stored height. */
  datatype Cell = Cell(key: int, a0: nat, a1: nat, h: int)

  type Memory = map<nat, Cell>

  /** A place that holds a pointer to a node: the root pointer or a child field. */
  datatype Slot = RootSlot | Child(id: nat, right: bool)

  function Id(t: Tree): nat { if t.Nil? then 0 else t.id }

  /** The linked nodes from Id(t) on are t. */
  predicate Rep(m: Memory, t: Tree) {
    t.Node? ==> t.id != 0 && t.id in m && m[t.id] == Cell(t.key, Id(t.l), Id(t.r), t.h) && Rep(m, t.l) && Rep(m, t.r)
  }

  /** No node is shared. */
  predicate Apart(t: Tree) {
    t.Node? ==> t.id !in Ids(t.l) && t.id !in Ids(t.r) && Ids(t.l) !! Ids(t.r) && Apart(t.l) && Apart(t.r)
  }

  predicate Agree(m: Memory, m': Memory, ids: set<nat>) { forall i | i in ids && i in m :: i in m' && m'[i] == m[i] }

  lemma {:induction false} Frame(m: Memory, m': Memory, t: Tree)
    requires Rep(m, t) && Agree(m, m', Ids(t))
    ensures Rep(m', t)
  {
    if t.Node? { Frame(m, m', t.l); Frame(m, m', t.r); }
  }

  // ---- positions in a tree ----

  function Kid(t: Tree, right: bool): Tree
    requires t.Node?
  {
    if right then t.r else t.l
  }

  function SetKid(t: Tree, right: bool, u: Tree): Tree
    requires t.Node?
  {
    if right then t.(r := u) else t.(l := u)
  }

  predicate Way(t: Tree, dirs: seq<bool>) { dirs != [] ==> t.Node? && Way(Kid(t, dirs[0]), dirs[1..]) }

  function At(t: Tree, dirs: seq<bool>): Tree
    requires Way(t, dirs)
  {
    if dirs == [] then t else At(Kid(t, dirs[0]), dirs[1..])
  }

  function Put(t: Tree, dirs: seq<bool>, u: Tree): Tree
    requires Way(t, dirs)
  {
    if dirs == [] then u else SetKid(t, dirs[0], Put(Kid(t, dirs[0]), dirs[1..], u))
  }

  function SlotOf(t: Tree, dirs: seq<bool>): (s: Slot)
    requires Way(t, dirs)
    ensures s.Child? <==> dirs != []
  {
    if dirs == [] then RootSlot
    else if |dirs| == 1 then Child(t.id, dirs[0])
    else SlotOf(Kid(t, dirs[0]), dirs[1..])
  }

  lemma {:induction false} WayPrefix(t: Tree, dirs: seq<bool>, k: nat)
    requires Way(t, dirs) && k <= |dirs|
    ensures Way(t, dirs[..k]) && Way(At(t, dirs[..k]), dirs[k..]) && At(At(t, dirs[..k]), dirs[k..]) == At(t, dirs)
    ensures k < |dirs| ==> At(t, dirs[..k]).Node?
    decreases dirs
  {
    if k == 0 {
      assert dirs[..0] == [] && dirs[0..] == dirs;
    } else {
      WayPrefix(Kid(t, dirs[0]), dirs[1..], k - 1);
      assert dirs[..k][1..] == dirs[1..][..k - 1] && dirs[1..][k - 1..] == dirs[k..];
    }
  }

  lemma {:induction false} WaySnoc(t: Tree, dirs: seq<bool>, b: bool)
    requires Way(t, dirs) && At(t, dirs).Node?
    ensures Way(t, dirs + [b]) && At(t, dirs + [b]) == Kid(At(t, dirs), b)
        && SlotOf(t, dirs + [b]) == Child(At(t, dirs).id, b)
    decreases dirs
  {
    if dirs == [] {
      assert dirs + [b] == [b] && [b][1..] == [];
    } else {
      WaySnoc(Kid(t, dirs[0]), dirs[1..], b);
      assert (dirs + [b])[1..] == dirs[1..] + [b];
    }
  }

  /** What `tdelete` returns: null, some other pointer for the root, or the parent. */
  datatype Deleted = NotThere | WasRoot | Below(parent: nat)

  /** One of the children of node p compares equal to key. */
  ghost predicate ParentOf(cmp: Compare, t: Tree, key: int, p: nat) {
    exists dirs: seq<bool>, right: bool :: ChildOf(cmp, t, key, p, dirs, right)
  }

  ghost predicate ChildOf(cmp: Compare, t: Tree, key: int, p: nat, dirs: seq<bool>, right: bool) {
    && Way(t, dirs) && At(t, dirs).Node? && At(t, dirs).id == p
    && var kid := Kid(At(t, dirs), right); kid.Node? && cmp(key, kid.key) == 0
  }

  /** The slot of a node is in its parent. */
  lemma SlotParent(cmp: Compare, t: Tree, key: int, dirs: seq<bool>)
    requires Way(t, dirs) && At(t, dirs).Node? && cmp(key, At(t, dirs).key) == 0
    ensures dirs != [] ==> ParentOf(cmp, t, key, SlotOf(t, dirs).id)
  {
    if dirs != [] {
      var up, b := dirs[..|dirs| - 1], dirs[|dirs| - 1];
      WayPrefix(t, dirs, |dirs| - 1);
      WaySnoc(t, up, b);
      assert up + [b] == dirs;
      assert ChildOf(cmp, t, key, At(t, up).id, up, b);
    }
  }

  lemma {:induction false} AtIds(t: Tree, dirs: seq<bool>)
    requires Way(t, dirs)
    ensures Ids(At(t, dirs)) <= Ids(t)
    decreases dirs
  {
    if dirs != [] { AtIds(Kid(t, dirs[0]), dirs[1..]); }
  }

  lemma {:induction false} AtRep(m: Memory, t: Tree, dirs: seq<bool>)
    requires Way(t, dirs) && Rep(m, t) && Apart(t)
    ensures Rep(m, At(t, dirs)) && Apart(At(t, dirs))
    decreases dirs
  {
    if dirs != [] { AtRep(m, Kid(t, dirs[0]), dirs[1..]); }
  }

  /** Where the slot of a position points. */
  function Load(m: Memory, root: nat, s: Slot): nat
    requires s.Child? ==> s.id in m
  {
    if s.RootSlot? then root else if s.right then m[s.id].a1 else m[s.id].a0
  }

  lemma {:induction false} SlotPoints(m: Memory, root: nat, t: Tree, dirs: seq<bool>)
    requires Way(t, dirs) && Rep(m, t) && root == Id(t)
    ensures var s := SlotOf(t, dirs); (s.Child? ==> s.id in m && s.id in Ids(t)) && Load(m, root, s) == Id(At(t, dirs))
    decreases dirs
  {
    if |dirs| == 1 {
      assert dirs[1..] == [];
    } else if dirs != [] {
      SlotPoints(m, Id(Kid(t, dirs[0])), Kid(t, dirs[0]), dirs[1..]);
    }
  }

  function SetCell(c: Cell, right: bool, p: nat): Cell { if right then c.(a1 := p) else c.(a0 := p) }

  function Stored(m: Memory, s: Slot, p: nat): Memory
    requires s.Child? && s.id in m
  {
    m[s.id := SetCell(m[s.id], s.right, p)]
  }

  /** A new tree under an unchanged node. */
  lemma WithKid(m: Memory, m2: Memory, t: Tree, b: bool, v: Tree)
    requires t.Node? && Apart(t) && Rep(m, t) && Agree(m, m2, {t.id} + Ids(Kid(t, !b)))
    requires Rep(m2, v) && Apart(v) && Id(v) == Id(Kid(t, b)) && Ids(v) !! {t.id} + Ids(Kid(t, !b))
    ensures Rep(m2, SetKid(t, b, v)) && Apart(SetKid(t, b, v))
  {
    Frame(m, m2, Kid(t, !b));
  }

  /** A new tree linked to a node. */
  lemma LinkKid(m: Memory, m': Memory, t: Tree, b: bool, u: Tree)
    requires t.Node? && Apart(t) && Rep(m, t) && Agree(m, m', {t.id} + Ids(Kid(t, !b)))
    requires Rep(m', u) && Apart(u) && Ids(u) !! {t.id} + Ids(Kid(t, !b))
    ensures t.id in m' && var m2 := Stored(m', Child(t.id, b), Id(u));
            Rep(m2, SetKid(t, b, u)) && Apart(SetKid(t, b, u))
  {
    var m2 := Stored(m', Child(t.id, b), Id(u));
    Frame(m', m2, u);
    Frame(m, m2, Kid(t, !b));
  }

  lemma KidIds(t: Tree, b: bool, v: Tree)
    requires t.Node? && Apart(t)
    ensures Ids(t) == {t.id} + Ids(Kid(t, b)) + Ids(Kid(t, !b)) && Ids(Kid(t, b)) !! {t.id} + Ids(Kid(t, !b))
    ensures Ids(SetKid(t, b, v)) == {t.id} + Ids(Kid(t, !b)) + Ids(v)
  {
  }

  /** Storing into the slot of a position replaces the subtree there. m' may differ from m inside the
      old subtree, and holds the new one. */
  lemma {:induction false} StoreKid(m: Memory, m': Memory, t: Tree, dirs: seq<bool>, u: Tree)
    requires Way(t, dirs) && dirs != [] && Rep(m, t) && Apart(t)
    requires Rep(m', u) && Apart(u) && Agree(m, m', Ids(t) - Ids(At(t, dirs))) && Ids(u) !! Ids(t) - Ids(At(t, dirs))
    ensures var s := SlotOf(t, dirs);
            s.id in m' && s.id in Ids(t) - Ids(At(t, dirs)) && Rep(Stored(m', s, Id(u)), Put(t, dirs, u))
    ensures Apart(Put(t, dirs, u)) && Ids(Put(t, dirs, u)) == Ids(t) - Ids(At(t, dirs)) + Ids(u)
    decreases dirs
  {
    hide Rep; hide Ids;
    var b := dirs[0];
    var kid, v := Kid(t, b), Put(Kid(t, b), dirs[1..], u);
    RepKid(m, t, b);
    KidIds(t, b, v);
    if |dirs| == 1 {
      assert dirs[1..] == [];
      LinkKid(m, m', t, b, u);
    } else {
      AtIds(kid, dirs[1..]);
      StoreKid(m, m', kid, dirs[1..], u);
      KidId(kid, dirs[1..], u);
      WithKid(m, Stored(m', SlotOf(t, dirs), Id(u)), t, b, v);
    }
  }

  lemma RepKid(m: Memory, t: Tree, b: bool)
    requires t.Node? && Rep(m, t)
    ensures t.id in m && Rep(m, Kid(t, b)) && t.id != 0 && Load(m, 0, Child(t.id, b)) == Id(Kid(t, b))
    ensures m[t.id] == Cell(t.key, Id(t.l), Id(t.r), t.h)
  {
  }

  lemma KidId(t: Tree, dirs: seq<bool>, u: Tree)
    requires Way(t, dirs) && dirs != []
    ensures Id(Put(t, dirs, u)) == Id(t)
  {
  }

  // ---- rebalancing along a path ----

  /** The nodes on the way, from the last but one up to the root, balanced in turn. */
  function BalUp(t: Tree, dirs: seq<bool>): (u: Tree)
    requires Way(t, dirs)
  {
    if dirs == [] then t else Rebalance(SetKid(t, dirs[0], BalUp(Kid(t, dirs[0]), dirs[1..])))
  }

  /** Each of them needs at most one balancing. */
  predicate UpNearly(t: Tree, dirs: seq<bool>)
    requires Way(t, dirs)
  {
    dirs != [] ==> Nearly(SetKid(t, dirs[0], BalUp(Kid(t, dirs[0]), dirs[1..]))) && UpNearly(Kid(t, dirs[0]), dirs[1..])
  }

  /** Replacing a subtree leaves the way to its parent as it was. */
  lemma {:induction false} PutBelow(t: Tree, q: seq<bool>, b: bool, v: Tree, w: Tree)
    requires Way(t, q) && At(t, q).Node? && Way(t, q + [b])
    ensures var T := Put(t, q + [b], v);
            Way(T, q) && At(T, q) == SetKid(At(t, q), b, v) && SlotOf(T, q) == SlotOf(t, q)
                && Put(T, q, w) == Put(t, q, w)
    decreases q
  {
    if q == [] {
      assert q + [b] == [b] && [b][1..] == [];
    } else {
      assert (q + [b])[1..] == q[1..] + [b];
      PutBelow(Kid(t, q[0]), q[1..], b, v, w);
    }
  }

  lemma {:induction false} UpPart(t: Tree, dirs: seq<bool>, d: nat)
    requires Way(t, dirs) && UpNearly(t, dirs) && d <= |dirs|
    ensures Way(t, dirs[..d]) && Way(At(t, dirs[..d]), dirs[d..]) && UpNearly(At(t, dirs[..d]), dirs[d..])
    decreases dirs
  {
    if d == 0 {
      assert dirs[..0] == [] && dirs[0..] == dirs;
    } else {
      UpPart(Kid(t, dirs[0]), dirs[1..], d - 1);
      assert dirs[..d][1..] == dirs[1..][..d - 1] && dirs[1..][d - 1..] == dirs[d..];
    }
  }

  /** The tree with everything below position dirs[..d] rebalanced. */
  function UpTo(t: Tree, dirs: seq<bool>, d: nat): Tree
    requires Way(t, dirs) && d <= |dirs|
  {
    WayPrefix(t, dirs, d);
    Put(t, dirs[..d], BalUp(At(t, dirs[..d]), dirs[d..]))
  }

  lemma UpStep(t: Tree, dirs: seq<bool>, d: nat)
    requires Way(t, dirs) && UpNearly(t, dirs) && d < |dirs|
    ensures var T := UpTo(t, dirs, d + 1); var q := dirs[..d];
            && Way(t, q) && Way(T, q) && At(T, q).Node? && Nearly(At(T, q)) && SlotOf(T, q) == SlotOf(t, q)
            && Put(T, q, BalanceNearly(At(T, q))) == UpTo(t, dirs, d)
  {
    hide Avl; hide BalanceNearly;
    var q, b := dirs[..d], dirs[d];
    WayPrefix(t, dirs, d); WayPrefix(t, dirs, d + 1);
    UpPart(t, dirs, d);
    assert dirs[..d + 1] == q + [b];
    assert dirs[d..][0] == b && dirs[d..][1..] == dirs[d + 1..];
    WaySnoc(t, q, b);
    var v := BalUp(At(t, dirs[..d + 1]), dirs[d + 1..]);
    PutBelow(t, q, b, v, BalUp(At(t, q), dirs[d..]));
  }

  // ---- search paths ----

  /** dirs is the way that comparing takes, past nodes that do not compare equal. */
  predicate SearchPath(cmp: Compare, t: Tree, k: int, dirs: seq<bool>)
    requires Way(t, dirs)
  {
    dirs != [] ==>
        cmp(k, t.key) != 0 && dirs[0] == (cmp(k, t.key) > 0) && SearchPath(cmp, Kid(t, dirs[0]), k, dirs[1..])
  }

  lemma {:induction false} SearchSnoc(cmp: Compare, t: Tree, k: int, dirs: seq<bool>, b: bool)
    requires Way(t, dirs) && SearchPath(cmp, t, k, dirs) && At(t, dirs).Node? && cmp(k, At(t, dirs).key) != 0
        && b == (cmp(k, At(t, dirs).key) > 0)
    ensures Way(t, dirs + [b]) && SearchPath(cmp, t, k, dirs + [b])
    decreases dirs
  {
    WaySnoc(t, dirs, b);
    if dirs == [] {
      assert dirs + [b] == [b] && [b][1..] == [];
    } else {
      SearchSnoc(cmp, Kid(t, dirs[0]), k, dirs[1..], b);
      assert (dirs + [b])[1..] == dirs[1..] + [b];
    }
  }

  lemma {:induction false} WayDepth(t: Tree, dirs: seq<bool>)
    requires Way(t, dirs)
    ensures |dirs| + Depth(At(t, dirs)) <= Depth(t)
    decreases dirs
  {
    if dirs != [] { WayDepth(Kid(t, dirs[0]), dirs[1..]); }
  }

  /** Where the search ends tells whether the key is there. */
  lemma {:induction false} SearchEnds(cmp: Compare, t: Tree, k: int, dirs: seq<bool>)
    requires Preorder(cmp) && Ordered(cmp, t) && Way(t, dirs) && SearchPath(cmp, t, k, dirs)
    ensures At(t, dirs).Nil? ==> !Member(cmp, Keys(t), k)
    ensures At(t, dirs).Node? && cmp(k, At(t, dirs).key) == 0 ==> Member(cmp, Keys(t), k)
    decreases dirs
  {
    hide Preorder;
    if dirs != [] {
      MemberSide(cmp, t, k);
      SearchEnds(cmp, Kid(t, dirs[0]), k, dirs[1..]);
    } else if t.Node? {
      MemberSide(cmp, t, k);
    }
  }

  /** Inserting is putting the new node where the search ended and rebalancing up. */
  lemma {:induction false} InsertUp(cmp: Compare, t: Tree, k: int, id: nat, dirs: seq<bool>)
    requires Way(t, dirs) && SearchPath(cmp, t, k, dirs) && At(t, dirs).Nil? && Avl(t)
    ensures var T := Put(t, dirs, Node(Nil, id, k, 1, Nil));
            Way(T, dirs) && UpNearly(T, dirs) && BalUp(T, dirs) == Insert(cmp, t, k, id)
    decreases dirs
  {
    hide BalanceNearly;
    if dirs != [] {
      var kid := Kid(t, dirs[0]);
      InsertUp(cmp, kid, k, id, dirs[1..]);
      InsertAvl(cmp, kid, k, id);
    }
  }

  /** The slots on the way to a replaced subtree are the old ones. */
  lemma {:induction false} SameSlots(t: Tree, dirs: seq<bool>, u: Tree, i: nat)
    requires Way(t, dirs) && i < |dirs|
    ensures Way(Put(t, dirs, u), dirs[..i]) && Way(t, dirs[..i])
        && SlotOf(Put(t, dirs, u), dirs[..i]) == SlotOf(t, dirs[..i])
    decreases dirs
  {
    if i == 0 {
      assert dirs[..0] == [];
    } else {
      SameSlots(Kid(t, dirs[0]), dirs[1..], u, i - 1);
      assert dirs[..i][1..] == dirs[1..][..i - 1];
      if i == 1 { assert dirs[..1] == [dirs[0]]; }
    }
  }

  // ---- deleting ----

  /** j times to the left. */
  function Lefts(j: nat): (d: seq<bool>)
    ensures |d| == j && forall i | 0 <= i < j :: !d[i]
  {
    seq(j, _ => false)
  }

  lemma LeftsMore(j: nat)
    ensures Lefts(j + 1) == Lefts(j) + [false] && Lefts(j + 1)[1..] == Lefts(j) && Lefts(0) == []
    ensures forall i: nat | i <= j :: Lefts(j)[..i] == Lefts(i)
  {
  }

  /** The tree without its leftmost node, which is j steps down, not rebalanced. */
  function RawPop(t: Tree, j: nat): Tree
    requires Way(t, Lefts(j)) && At(t, Lefts(j)).Node?
  {
    Put(t, Lefts(j), At(t, Lefts(j)).r)
  }

  /** Popping the leftmost node is splicing it out and rebalancing up. */
  lemma {:induction false} PopUp(t: Tree, j: nat)
    requires Way(t, Lefts(j)) && At(t, Lefts(j)).Node? && At(t, Lefts(j)).l.Nil? && Avl(t)
    ensures t.Node? && Way(RawPop(t, j), Lefts(j)) && UpNearly(RawPop(t, j), Lefts(j))
    ensures PopMin(t) == (At(t, Lefts(j)), BalUp(RawPop(t, j), Lefts(j)))
    decreases j
  {
    hide BalanceNearly;
    if j == 0 {
      assert Lefts(0) == [];
    } else {
      LeftsMore(j - 1);
      assert Lefts(j)[0] == false;
      PopUp(t.l, j - 1);
      PopMinAvl(t.l);
    }
  }

  /** Deleting is replacing the found node's subtree and rebalancing up from below it. */
  lemma {:induction false} DeleteUp(cmp: Compare, t: Tree, k: int, dirs: seq<bool>, v: Tree, rest: seq<bool>)
    requires Way(t, dirs) && SearchPath(cmp, t, k, dirs) && Avl(t) && Way(v, rest) && UpNearly(v, rest)
        && BalUp(v, rest) == Delete(cmp, At(t, dirs), k)
    ensures var T := Put(t, dirs, v);
            Way(T, dirs + rest) && UpNearly(T, dirs + rest) && BalUp(T, dirs + rest) == Delete(cmp, t, k)
    decreases dirs
  {
    hide BalanceNearly;
    if dirs == [] {
      assert dirs + rest == rest;
    } else {
      var kid := Kid(t, dirs[0]);
      DeleteUp(cmp, kid, k, dirs[1..], v, rest);
      assert (dirs + rest)[1..] == dirs[1..] + rest;
      DeleteAvl(cmp, kid, k);
    }
  }

  /** A found node with two children: what its successor, in its place, has below it. */
  function Spliced(t: Tree, j: nat): Tree
    requires t.Node? && Way(t.r, Lefts(j)) && At(t.r, Lefts(j)).Node?
  {
    var s := At(t.r, Lefts(j));
    Node(t.l, s.id, s.key, s.h, RawPop(t.r, j))
  }

  lemma SplicedUp(cmp: Compare, t: Tree, k: int, j: nat)
    requires t.Node? && cmp(k, t.key) == 0 && t.l.Node? && Way(t.r, Lefts(j)) && At(t.r, Lefts(j)).Node?
        && At(t.r, Lefts(j)).l.Nil? && Avl(t)
    ensures var rest := [true] + Lefts(j); var v := Spliced(t, j);
            Way(v, rest) && UpNearly(v, rest) && BalUp(v, rest) == Delete(cmp, t, k)
  {
    hide BalanceNearly;
    PopUp(t.r, j);
    PopMinAvl(t.r);
    AvlHeight(t.r);
    assert ([true] + Lefts(j))[1..] == Lefts(j);
  }

  /** Nothing changes when the key is not there. */
  lemma {:induction false} DeleteAbsent(cmp: Compare, t: Tree, k: int, dirs: seq<bool>)
    requires Way(t, dirs) && SearchPath(cmp, t, k, dirs) && At(t, dirs).Nil? && Avl(t)
    ensures Delete(cmp, t, k) == t
    decreases dirs
  {
    hide BalanceNearly;
    if dirs != [] {
      DeleteAbsent(cmp, Kid(t, dirs[0]), k, dirs[1..]);
      BalancedStays(t);
    }
  }

  /** The slots of the nodes to rebalance after a splice: up to the found node's they are the old
      ones, then comes the successor's right field, then the fields down the left spine. */
  lemma SplicedSlots(t: Tree, dirs: seq<bool>, j: nat, i: nat)
    requires Way(t, dirs) && At(t, dirs).Node? && Way(At(t, dirs).r, Lefts(j)) && At(At(t, dirs).r, Lefts(j)).Node?
        && i <= |dirs| + j
    ensures var sub := At(t, dirs); var T := Put(t, dirs, Spliced(sub, j)); var all := dirs + ([true] + Lefts(j));
            && Way(T, all[..i])
            && (i <= |dirs| ==> Way(t, dirs[..i]) && SlotOf(T, all[..i]) == SlotOf(t, dirs[..i]))
            && (i == |dirs| + 1 ==> SlotOf(T, all[..i]) == Child(Spliced(sub, j).id, true))
            && (i > |dirs| + 1 ==>
                Way(sub.r, Lefts(i - |dirs| - 1)) && SlotOf(T, all[..i]) == SlotOf(sub.r, Lefts(i - |dirs| - 1)))
    decreases dirs
  {
    var sub := At(t, dirs);
    var v, all := Spliced(sub, j), dirs + ([true] + Lefts(j));
    if i == 0 {
      assert all[..0] == [] && dirs[..0] == [];
    } else if dirs != [] {
      SplicedSlots(Kid(t, dirs[0]), dirs[1..], j, i - 1);
      assert all[..i][1..] == (dirs[1..] + ([true] + Lefts(j)))[..i - 1];
      if i == 1 { assert all[..1] == [dirs[0]] && dirs[..1] == [dirs[0]]; }
      if 1 < i <= |dirs| { assert dirs[..i][1..] == dirs[1..][..i - 1]; }
    } else {
      LeftsMore(j);
      assert all == [true] + Lefts(j);
      assert all[..i] == [true] + Lefts(i - 1);
      assert all[..i][1..] == Lefts(i - 1);
      if i > 1 {
        assert Lefts(j)[..i - 1] == Lefts(i - 1);
        SameSlots(sub.r, Lefts(j), At(sub.r, Lefts(j)).r, i - 1);
      }
    }
  }

  /** After the successor has been unlinked and given the found node's children, it stands for the
      spliced tree. */
  lemma SplicedRep(m: Memory, m1: Memory, m2: Memory, t: Tree, j: nat)
    requires t.Node? && Rep(m, t) && Apart(t) && t.l.Node? && Way(t.r, Lefts(j)) && At(t.r, Lefts(j)).Node?
        && At(t.r, Lefts(j)).l.Nil?
    requires Way(t, [true] + Lefts(j))
    requires var s := At(t.r, Lefts(j)); var sp := SlotOf(t, [true] + Lefts(j));
             && sp.Child? && sp.id in m && m1 == Stored(m, sp, Id(s.r))
             && t.id in m1 && s.id in m1 && m2 == m1[s.id := Cell(m1[s.id].key, m1[t.id].a0, m1[t.id].a1, m1[s.id].h)]
    ensures var v := Spliced(t, j);
            Rep(m2, v) && Apart(v) && Ids(v) + {t.id} == Ids(t) && t.id !in Ids(v) && Only(m, m2, Ids(t))
  {
    hide Rep; hide Ids;
    var s, w := At(t.r, Lefts(j)), RawPop(t.r, j);
    RepKid(m, t, true); RepKid(m, t, false);
    ApartKids(t);
    AtRep(m, t.r, Lefts(j)); AtIds(t.r, Lefts(j));
    RepKid(m, s, true); ApartKids(s); NoIds();
    if j == 0 {
      LeftsMore(0);
      assert [true] + Lefts(0) == [true];
      Frame(m, m1, s.r);
      SplicedLink(m, m1, m2, t, s, w);
    } else {
      assert ([true] + Lefts(j))[1..] == Lefts(j);
      StoreKid(m, m, t.r, Lefts(j), s.r);
      KidId(t.r, Lefts(j), s.r);
      SplicedLink(m, m1, m2, t, s, w);
    }
  }

  lemma NoIds()
    ensures Ids(Nil) == {}
  {
  }

  lemma SplicedLink(m: Memory, m1: Memory, m2: Memory, t: Tree, s: Tree, w: Tree)
    requires t.Node? && s.Node? && Rep(m, t) && Apart(t) && Ids(s) <= Ids(t.r) && Rep(m, s) && Apart(s)
    requires Rep(m1, w) && Apart(w) && Ids(w) + {s.id} == Ids(t.r) && s.id !in Ids(w)
    requires m1.Keys == m.Keys && (forall i | i in m && i != t.id && i !in Ids(t.r) - Ids(s) :: m1[i] == m[i])
    requires t.id in m1 && m1[t.id].a0 == Id(t.l) && m1[t.id].a1 == Id(w)
    requires s.id in m1 && m2 == m1[s.id := Cell(m1[s.id].key, m1[t.id].a0, m1[t.id].a1, m1[s.id].h)]
    ensures var v := Node(t.l, s.id, s.key, s.h, w);
            Rep(m2, v) && Apart(v) && Ids(v) + {t.id} == Ids(t) && t.id !in Ids(v) && Only(m, m2, Ids(t))
  {
    ApartKids(t);
    RepKid(m, s, true);
    Frame(m1, m2, w);
    RepKid(m, t, false);
    Frame(m, m2, t.l);
  }

  // ---- the operations in place ----

  /** Only nodes of t have changed. */
  predicate Only(m: Memory, m': Memory, ids: set<nat>) {
    m'.Keys == m.Keys && forall i | i in m && i !in ids :: m'[i] == m[i]
  }

  lemma RotApart(t: Tree, right: bool)
    requires t.Node? && Apart(t) && Kid(t, !right).Node?
    ensures Apart(Rot(t, right))
  {
  }

  /** What rotating does to the two nodes it touches. */
  lemma RotRep(m: Memory, m': Memory, t: Tree, right: bool)
    requires t.Node? && Kid(t, !right).Node? && Rep(m, t) && Apart(t)
    requires var u := Rot(t, right); var n := Kid(u, right);
             && m'.Keys == m.Keys && (forall i | i in m && i != u.id && i != n.id :: m'[i] == m[i])
             && u.id in m' && m'[u.id] == Cell(u.key, Id(u.l), Id(u.r), u.h)
             && n.id in m' && m'[n.id] == Cell(n.key, Id(n.l), Id(n.r), n.h)
    ensures Rep(m', Rot(t, right)) && Only(m, m', Ids(t))
  {
    var u := Rot(t, right);
    var n := Kid(u, right);
    Frame(m, m', n.l); Frame(m, m', n.r); Frame(m, m', Kid(u, !right));
  }

  class SearchTree {
    var mem: Memory
    var root: nat

    constructor ()
      ensures Is(Nil)
    {
      mem, root := map[], 0;
    }

    /** The linked nodes from the root on are t. */
    ghost predicate Is(t: Tree)
      reads this
    {
      root == Id(t) && Rep(mem, t) && Apart(t)
    }

    function HeightAt(p: nat): int
      requires p != 0 ==> p in mem
      reads this
    {
      if p == 0 then 0 else mem[p].h
    }

    /** `rot`. */
    method RotAt(n: nat, right: bool, ghost t: Tree) returns (c: nat)
      requires t.Node? && n == t.id && Rep(mem, t) && Apart(t) && Kid(t, !right).Node?
      modifies this`mem
      ensures c == Id(Rot(t, right)) && Rep(mem, Rot(t, right)) && Apart(Rot(t, right)) && Only(old(mem), mem, Ids(t))
    {
      ghost var m := mem;
      RotApart(t, right);
      RepKid(mem, t, true); RepKid(mem, t, false);
      ghost var kid := Kid(t, !right);
      RepKid(mem, kid, true); RepKid(mem, kid, false);
      c := if right then mem[n].a0 else mem[n].a1;
      var moved := if right then mem[c].a1 else mem[c].a0;
      mem := mem[n := SetCell(mem[n], !right, moved)];
      mem := mem[c := SetCell(mem[c], right, n)];
      HeightOf(m, mem, kid.l); HeightOf(m, mem, kid.r); HeightOf(m, mem, Kid(t, right));
      var hl, hr := HeightAt(mem[n].a0), HeightAt(mem[n].a1);
      mem := mem[n := mem[n].(h := 1 + Max(hl, hr))];
      hl, hr := HeightAt(mem[c].a0), HeightAt(mem[c].a1);
      mem := mem[c := mem[c].(h := 1 + Max(hl, hr))];
      RotRep(m, mem, t, right);
    }

    /** `balance`. */
    method BalanceAt(n: nat, ghost t: Tree) returns (p: nat)
      requires t.Node? && n == t.id && Rep(mem, t) && Apart(t) && Nearly(t)
      modifies this`mem
      ensures var b := BalanceNearly(t); p == Id(b) && Rep(mem, b) && Apart(b) && Only(old(mem), mem, Ids(t))
    {
      hide Avl; hide Rot; hide Rep; hide Apart;
      ghost var m := mem;
      NearlyBalances(t);
      RepKid(mem, t, true); RepKid(mem, t, false); ApartKids(t);
      HeightOf(m, mem, t.l); HeightOf(m, mem, t.r);
      var hl, hr := HeightAt(mem[n].a0), HeightAt(mem[n].a1);
      if hl - hr > 1 {
        RepKid(mem, t.l, true); RepKid(mem, t.l, false);
        HeightOf(m, mem, t.l.l); HeightOf(m, mem, t.l.r);
        var c := mem[n].a0;
        if HeightAt(mem[c].a1) > HeightAt(mem[c].a0) {
          var c' := RotAt(c, false, t.l);
          ghost var m1, v := mem, Rot(t.l, false);
          RotKeys(t.l, false);
          mem := mem[n := mem[n].(a0 := c')];
          Relinked(m, m1, mem, t, false, v);
          p := RotAt(n, true, t.(l := v));
          return;
        }
        p := RotAt(n, true, t);
        return;
      }
      if hr - hl > 1 {
        RepKid(mem, t.r, true); RepKid(mem, t.r, false);
        HeightOf(m, mem, t.r.l); HeightOf(m, mem, t.r.r);
        var c := mem[n].a1;
        if HeightAt(mem[c].a0) > HeightAt(mem[c].a1) {
          var c' := RotAt(c, true, t.r);
          ghost var m1, v := mem, Rot(t.r, true);
          RotKeys(t.r, true);
          mem := mem[n := mem[n].(a1 := c')];
          Relinked(m, m1, mem, t, true, v);
          p := RotAt(n, false, t.(r := v));
          return;
        }
        p := RotAt(n, false, t);
        return;
      }
      mem := mem[n := mem[n].(h := 1 + Max(hl, hr))];
      Refitted(m, mem, t);
      p := n;
    }

    method Store(s: Slot, p: nat)
      requires s.Child? ==> s.id in mem
      modifies this
      ensures if s.RootSlot? then root == p && mem == old(mem) else root == old(root) && mem == Stored(old(mem), s, p)
    {
      if s.RootSlot? { root := p; } else { mem := mem[s.id := SetCell(mem[s.id], s.right, p)]; }
    }

    /** Replace the subtree at a position, of which other nodes may have changed, by u. */
    method StoreAt(s: Slot, ghost m: Memory, ghost t: Tree, ghost dirs: seq<bool>, ghost u: Tree, p: nat)
      requires Way(t, dirs) && s == SlotOf(t, dirs) && root == Id(t) && Rep(m, t) && Apart(t)
      requires Rep(mem, u) && Apart(u) && p == Id(u) && Agree(m, mem, Ids(t) - Ids(At(t, dirs)))
          && Ids(u) !! Ids(t) - Ids(At(t, dirs))
      modifies this
      ensures Is(Put(t, dirs, u)) && Ids(Put(t, dirs, u)) == Ids(t) - Ids(At(t, dirs)) + Ids(u)
          && mem.Keys == old(mem).Keys
    {
      hide Rep; hide Apart;
      if dirs != [] {
        StoreKid(m, mem, t, dirs, u);
        KidId(t, dirs, u);
      }
      Store(s, p);
    }

    /** The loop that both operations end with: balance the nodes in the saved slots, last first. */
    method Up(path: array<Slot>, depth0: nat, ghost t: Tree, ghost dirs: seq<bool>)
      requires Is(t) && Way(t, dirs) && UpNearly(t, dirs) && depth0 == |dirs| <= path.Length
      requires forall i: nat | i < |dirs| :: Way(t, dirs[..i]) && path[i] == SlotOf(t, dirs[..i])
      modifies this
      ensures Is(BalUp(t, dirs)) && Ids(BalUp(t, dirs)) == Ids(t) && mem.Keys == old(mem).Keys
    {
      hide Rep; hide Apart; hide Ids; hide Avl; hide BalanceNearly; hide UpNearly; hide SlotOf; hide Only;
      var depth := depth0;
      UpStart(t, dirs);
      while depth > 0
        invariant 0 <= depth <= |dirs| && Is(UpTo(t, dirs, depth)) && Ids(UpTo(t, dirs, depth)) == Ids(t)
            && mem.Keys == old(mem).Keys
      {
        depth := depth - 1;
        ghost var T, q := UpTo(t, dirs, depth + 1), dirs[..depth];
        UpStep(t, dirs, depth);
        ghost var sub, m := At(T, q), mem;
        SlotPoints(mem, root, T, q); AtRep(mem, T, q); AtIds(T, q);
        RepKid(mem, sub, true);
        var p := Load(mem, root, path[depth]);
        if p != 0 {
          var b := BalanceAt(p, sub);
          BalanceKeeps(sub);
          OnlyAgree(m, mem, T, sub);
          StoreAt(path[depth], m, T, q, BalanceNearly(sub), b);
        }
      }
      UpEnd(t, dirs);
    }

    /** The way down of both operations: the slots of the nodes passed, and the slot at its end. */
    method Descend(key: int, cmp: Compare, path: array<Slot>, ghost t: Tree)
      returns (pp: Slot, depth: nat, ghost dirs: seq<bool>)
      requires Is(t) && Depth(t) <= path.Length
      modifies path
      ensures Way(t, dirs) && SearchPath(cmp, t, key, dirs) && depth == |dirs| <= path.Length && pp == SlotOf(t, dirs)
      ensures forall i: nat | i < |dirs| :: Way(t, dirs[..i]) && path[i] == SlotOf(t, dirs[..i])
      ensures At(t, dirs).Node? ==> cmp(key, At(t, dirs).key) == 0
      ensures |dirs| + Depth(At(t, dirs)) <= Depth(t)
    {
      hide Rep; hide Apart; hide Depth;
      pp, depth, dirs := RootSlot, 0, [];
      SlotPoints(mem, root, t, dirs);
      WayDepth(t, dirs);
      while Load(mem, root, pp) != 0
        invariant Way(t, dirs) && SearchPath(cmp, t, key, dirs) && depth == |dirs| && pp == SlotOf(t, dirs)
            && |dirs| + Depth(At(t, dirs)) <= Depth(t)
        invariant pp.Child? ==> pp.id in mem
        invariant Load(mem, root, pp) == Id(At(t, dirs))
        invariant forall i: nat | i < |dirs| :: Way(t, dirs[..i]) && path[i] == SlotOf(t, dirs[..i])
        decreases Depth(At(t, dirs))
      {
        ghost var sub := At(t, dirs);
        AtRep(mem, t, dirs);
        RepKid(mem, sub, true);
        DepthKid(sub);
        var n := Load(mem, root, pp);
        var c := cmp(key, mem[n].key);
        if c == 0 { return; }
        path[depth] := pp;
        depth := depth + 1;
        SearchSnoc(cmp, t, key, dirs, c > 0);
        WaySnoc(t, dirs, c > 0);
        PathSnoc(t, dirs, c > 0);
        dirs := dirs + [c > 0];
        pp := Child(n, c > 0);
        SlotPoints(mem, root, t, dirs);
        WayDepth(t, dirs);
      }
      AtRep(mem, t, dirs);
      NilIs(mem, At(t, dirs));
    }

    /** `tfind`: a node with an equal key, or none. */
    method Tfind(key: int, cmp: Compare, ghost t: Tree) returns (n: nat)
      requires Is(t) && Preorder(cmp) && Ordered(cmp, t)
      ensures n != 0 <==> Member(cmp, Keys(t), key)
      ensures n != 0 ==> n in mem && n in Ids(t) && cmp(key, mem[n].key) == 0
    {
      hide Rep; hide Apart; hide Preorder; hide Ordered; hide Keys;
      ghost var dirs: seq<bool> := [];
      n := root;
      while n != 0
        invariant Way(t, dirs) && SearchPath(cmp, t, key, dirs) && n == Id(At(t, dirs))
        decreases Depth(At(t, dirs))
      {
        ghost var sub := At(t, dirs);
        AtRep(mem, t, dirs); AtIds(t, dirs);
        RepKid(mem, sub, true); RepKid(mem, sub, false);
        var c := cmp(key, mem[n].key);
        SearchEnds(cmp, t, key, dirs);
        if c == 0 { return; }
        SearchSnoc(cmp, t, key, dirs, c > 0);
        WaySnoc(t, dirs, c > 0);
        DepthKid(sub);
        dirs := dirs + [c > 0];
        n := if c > 0 then mem[n].a1 else mem[n].a0;
      }
      AtRep(mem, t, dirs);
      NilIs(mem, At(t, dirs));
      SearchEnds(cmp, t, key, dirs);
    }

    /** `tsearch`: the node with an equal key; a new one, with the address malloc gave, if there was
        none. */
    method Tsearch(key: int, cmp: Compare, id: nat, ghost t: Tree) returns (n: nat)
      requires Is(t) && Preorder(cmp) && Ordered(cmp, t) && Avl(t) && Size(t) < Pow2(64) && id != 0 && id !in mem
      modifies this
      ensures Is(Insert(cmp, t, key, id)) && n in mem && n in Ids(Insert(cmp, t, key, id)) && cmp(key, mem[n].key) == 0
      ensures Member(cmp, Keys(t), key) ==> mem == old(mem) && root == old(root)
      ensures !Member(cmp, Keys(t), key) ==> n == id && mem.Keys == old(mem).Keys + {id}
    {
      hide Rep; hide Apart; hide Preorder; hide Ordered; hide Keys; hide Avl; hide Insert; hide Pow;
      PathFits(t);
      InsertKeys(cmp, t, key, id);
      var path := new Slot[MAXH];
      var pp, depth, dirs := Descend(key, cmp, path, t);
      SlotPoints(mem, root, t, dirs); AtRep(mem, t, dirs); AtIds(t, dirs);
      SearchEnds(cmp, t, key, dirs);
      n := Load(mem, root, pp);
      if n != 0 {
        RepKid(mem, At(t, dirs), true);
        return;
      }
      NilIs(mem, At(t, dirs));
      ghost var m, leaf := mem, Node(Nil, id, key, 1, Nil);
      RepIds(mem, t);
      n := id;
      mem := mem[id := Cell(key, 0, 0, 1)];
      NewLeaf(mem, leaf);
      StoreAt(pp, m, t, dirs, leaf, id);
      InsertUp(cmp, t, key, id, dirs);
      forall i: nat | i < |dirs| ensures Way(Put(t, dirs, leaf), dirs[..i])
          && path[i] == SlotOf(Put(t, dirs, leaf), dirs[..i]) {
        SameSlots(t, dirs, leaf, i);
      }
      Up(path, depth, Put(t, dirs, leaf), dirs);
      InsertPair(cmp, t, key, id);
      KeyInPlace(mem, Insert(cmp, t, key, id), id, key);
      SameKey(cmp, key);
    }

    /** The way to the in-order successor: the slots of the nodes passed. */
    method WalkLeft(del: nat, path: array<Slot>, depth0: nat, ghost t: Tree)
      returns (sp: Slot, depth: nat, ghost j: nat)
      requires t.Node? && t.id == del && Rep(mem, t) && Apart(t) && t.r.Node? && depth0 + Depth(t) <= path.Length
      modifies path
      ensures Way(t.r, Lefts(j)) && At(t.r, Lefts(j)).Node? && At(t.r, Lefts(j)).l.Nil?
          && depth == depth0 + j <= path.Length
      ensures Way(t, [true] + Lefts(j)) && sp == SlotOf(t, [true] + Lefts(j))
      ensures forall i: nat | i < depth0 :: path[i] == old(path[i])
      ensures forall i: nat | i < j :: Way(t, [true] + Lefts(i)) && path[depth0 + i] == SlotOf(t, [true] + Lefts(i))
    {
      hide Rep; hide Apart; hide Depth; hide OnSpine; hide SpineSlots;
      sp, depth, j := Child(del, true), depth0, 0;
      SpineStart(mem, root, t);
      NoneSaved(path[..], depth0, t);
      ghost var before := path[..depth0];
      while mem[Load(mem, root, sp)].a0 != 0
        invariant OnSpine(mem, root, t, j, sp) && sp.Child? && sp.id in mem && Load(mem, root, sp) in mem
        invariant depth == depth0 + j < path.Length && path[..depth0] == before && SpineSlots(path[..], depth0, t, j)
        decreases Depth(t) - j
      {
        SpineNext(mem, root, t, j, sp);
        SpineSaved(path[..], depth0, t, j, sp, mem, root);
        path[depth] := sp;
        depth := depth + 1;
        sp := Child(Load(mem, root, sp), false);
        j := j + 1;
      }
      SpineEnd(mem, root, t, j, sp);
      SpineAll(path[..], depth0, t, j);
      forall i: nat | i < depth0 ensures path[i] == old(path[i]) { assert path[..depth0][i] == before[i]; }
    }

    /** `tdelete`: what it returns stands for the parent of the node deleted. */
    method Tdelete(key: int, cmp: Compare, ghost t: Tree) returns (r: Deleted)
      requires Is(t) && Preorder(cmp) && Ordered(cmp, t) && Avl(t) && Size(t) < Pow2(64)
      modifies this
      ensures r.NotThere? <==> !Member(cmp, Keys(t), key)
      ensures r.WasRoot? ==> t.Node? && cmp(key, t.key) == 0
      ensures r.Below? ==> ParentOf(cmp, t, key, r.parent)
      ensures Is(Delete(cmp, t, key))
      ensures r.NotThere? ==> mem == old(mem) && root == old(root) && Delete(cmp, t, key) == t
    {
      hide Rep; hide Apart; hide Preorder; hide Ordered; hide Keys; hide Avl; hide Delete; hide Pow; hide Depth;
      PathFits(t);
      var path := new Slot[MAXH + 1];
      var pp, depth, dirs := Descend(key, cmp, path, t);
      SlotPoints(mem, root, t, dirs); AtRep(mem, t, dirs);
      SearchEnds(cmp, t, key, dirs);
      var del := Load(mem, root, pp);
      if del == 0 {
        NilIs(mem, At(t, dirs));
        DeleteAbsent(cmp, t, key, dirs);
        return NotThere;
      }
      r := if pp.Child? then Below(pp.id) else WasRoot;
      SlotParent(cmp, t, key, dirs);
      ghost var sub := At(t, dirs);
      RepKid(mem, sub, true); RepKid(mem, sub, false);
      AvlAt(t, dirs);
      if mem[del].a0 == 0 || mem[del].a1 == 0 {
        DeleteSimple(key, cmp, pp, path, depth, del, t, dirs);
      } else {
        KidsThere(mem, sub);
        DeleteFull(key, cmp, pp, path, depth, del, t, dirs);
      }
    }

    /** At most one child: it takes the node's place. */
    method DeleteSimple(key: int, cmp: Compare, pp: Slot, path: array<Slot>, depth: nat, del: nat, ghost t: Tree,
        ghost dirs: seq<bool>)
      requires Is(t) && Avl(t) && Way(t, dirs) && SearchPath(cmp, t, key, dirs) && pp == SlotOf(t, dirs)
          && depth == |dirs| <= path.Length
      requires At(t, dirs).Node? && At(t, dirs).id == del && cmp(key, At(t, dirs).key) == 0 && del in mem
      requires mem[del].a0 == Id(At(t, dirs).l) && mem[del].a1 == Id(At(t, dirs).r)
          && (mem[del].a0 == 0 || mem[del].a1 == 0)
      requires forall i: nat | i < |dirs| :: Way(t, dirs[..i]) && path[i] == SlotOf(t, dirs[..i])
      modifies this
      ensures Is(Delete(cmp, t, key))
    {
      hide Rep; hide Apart; hide Avl; hide Depth; hide Ids;
      ghost var m, sub := mem, At(t, dirs);
      AtRep(mem, t, dirs); AtIds(t, dirs);
      RepKid(mem, sub, true); RepKid(mem, sub, false); ApartKids(sub);
      if mem[del].a0 == 0 { NilIs(mem, sub.l); } else { NilIs(mem, sub.r); }
      ghost var u := if sub.l.Nil? then sub.r else sub.l;
      StoreAt(pp, m, t, dirs, u, if mem[del].a0 == 0 then mem[del].a1 else mem[del].a0);
      ghost var T := Put(t, dirs, u);
      ghost var full := mem;
      mem := mem - {del};
      Frame(full, mem, T);
      DeleteUp(cmp, t, key, dirs, u, []);
      assert dirs + [] == dirs;
      forall i: nat | i < |dirs| ensures Way(T, dirs[..i]) && path[i] == SlotOf(T, dirs[..i]) {
        SameSlots(t, dirs, u, i);
      }
      Up(path, depth, T, dirs);
    }

    /** Unlink the successor, give it the found node's children, link it in the found node's place,
        and free the found node. */
    method Splice(pp: Slot, sp: Slot, del: nat, ghost t: Tree, ghost dirs: seq<bool>, ghost j: nat) returns (n: nat)
      requires Is(t) && Way(t, dirs) && At(t, dirs).Node? && At(t, dirs).id == del && At(t, dirs).l.Node?
          && pp == SlotOf(t, dirs)
      requires var sub := At(t, dirs);
               Way(sub.r, Lefts(j)) && At(sub.r, Lefts(j)).Node? && At(sub.r, Lefts(j)).l.Nil?
                   && Way(sub, [true] + Lefts(j)) && sp == SlotOf(sub, [true] + Lefts(j))
      modifies this
      ensures Is(Put(t, dirs, Spliced(At(t, dirs), j))) && n == Spliced(At(t, dirs), j).id
    {
      hide Rep; hide Apart; hide Ids; hide Only; hide SlotOf; hide Put;
      ghost var m, sub := mem, At(t, dirs);
      AtRep(mem, t, dirs); AtIds(t, dirs);
      ghost var s := At(sub.r, Lefts(j));
      SuccessorCells(mem, root, sub, j);
      n := Load(mem, root, sp);
      Store(sp, mem[n].a1);
      ghost var m1 := mem;
      StoredKeys(m, sp, Id(s.r));
      mem := mem[n := mem[n].(a0 := mem[del].a0)];
      mem := mem[n := mem[n].(a1 := mem[del].a1)];
      SplicedRep(m, m1, mem, sub, j);
      OnlyAgree(m, mem, t, sub);
      StoreAt(pp, m, t, dirs, Spliced(sub, j), n);
      ghost var full := mem;
      mem := mem - {del};
      Frame(full, mem, Put(t, dirs, Spliced(sub, j)));
    }

    /** Two children: the in-order successor takes the node's place. */
    method DeleteFull(key: int, cmp: Compare, pp: Slot, path: array<Slot>, depth0: nat, del: nat, ghost t: Tree,
        ghost dirs: seq<bool>)
      requires Is(t) && Avl(t) && Way(t, dirs) && SearchPath(cmp, t, key, dirs) && pp == SlotOf(t, dirs)
          && depth0 == |dirs|
      requires At(t, dirs).Node? && At(t, dirs).id == del && cmp(key, At(t, dirs).key) == 0 && At(t, dirs).l.Node?
          && At(t, dirs).r.Node?
      requires Avl(At(t, dirs)) && |dirs| + Depth(At(t, dirs)) < path.Length
      requires forall i: nat | i < |dirs| :: Way(t, dirs[..i]) && path[i] == SlotOf(t, dirs[..i])
      modifies this, path
      ensures Is(Delete(cmp, t, key))
    {
      hide Rep; hide Apart; hide Avl; hide Depth; hide Ids; hide Spliced; hide BalUp; hide UpNearly; hide Delete;
      ghost var sub := At(t, dirs);
      AtRep(mem, t, dirs);
      DepthKid(sub);
      path[depth0] := pp;
      var succAt := depth0 + 1;
      var sp, depth, j := WalkLeft(del, path, succAt, sub);
      var n := Splice(pp, sp, del, t, dirs, j);
      ghost var v := Spliced(sub, j);
      ghost var T, all := Put(t, dirs, v), dirs + ([true] + Lefts(j));
      if depth > succAt { path[succAt] := Child(n, true); }
      SplicedUp(cmp, sub, key, j);
      DeleteUp(cmp, t, key, dirs, v, [true] + Lefts(j));
      forall i: nat | i < |all| ensures Way(T, all[..i]) && path[i] == SlotOf(T, all[..i]) {
        SplicedSlots(t, dirs, j, i);
        if i > |dirs| + 1 { SpineAt(sub, i - |dirs| - 1); }
        assert i == |dirs| ==> dirs[..i] == dirs;
      }
      Up(path, depth, T, all);
    }
  }

  /** The stored height of an untouched tree. */
  lemma HeightOf(m: Memory, m': Memory, x: Tree)
    requires Rep(m, x) && (x.Node? && x.id in m ==> x.id in m' && m'[x.id] == m[x.id])
    ensures if x.Nil? then Id(x) == 0 else Id(x) != 0 && Id(x) in m' && m'[Id(x)].h == Height(x)
  {
  }

  lemma ApartKids(t: Tree)
    requires t.Node? && Apart(t)
    ensures Apart(t.l) && Apart(t.r) && t.id !in Ids(t.l) && t.id !in Ids(t.r) && Ids(t.l) !! Ids(t.r)
        && Ids(t) == Ids(t.l) + {t.id} + Ids(t.r)
  {
  }

  /** A rotated child, linked to its parent. */
  lemma Relinked(m: Memory, m1: Memory, m2: Memory, t: Tree, b: bool, v: Tree)
    requires t.Node? && Rep(m, t) && Apart(t) && Only(m, m1, Ids(Kid(t, b))) && Rep(m1, v) && Apart(v)
        && Ids(v) == Ids(Kid(t, b))
    requires t.id in m1 && m2 == m1[t.id := SetCell(m1[t.id], b, Id(v))]
    ensures var u := SetKid(t, b, v); Rep(m2, u) && Apart(u) && Ids(u) == Ids(t) && Only(m, m2, Ids(t))
  {
    KidIds(t, b, v);
    LinkKid(m, m1, t, b, v);
  }

  lemma Refitted(m: Memory, m': Memory, t: Tree)
    requires t.Node? && Rep(m, t) && Apart(t) && t.id in m
        && m' == m[t.id := m[t.id].(h := 1 + Max(Height(t.l), Height(t.r)))]
    ensures Rep(m', Fix(t)) && Apart(Fix(t)) && Only(m, m', Ids(t))
  {
    Frame(m, m', t.l); Frame(m, m', t.r);
  }

  lemma UpStart(t: Tree, dirs: seq<bool>)
    requires Way(t, dirs)
    ensures UpTo(t, dirs, |dirs|) == t
  {
    WayPrefix(t, dirs, |dirs|);
    assert dirs[..|dirs|] == dirs && dirs[|dirs|..] == [];
    PutSame(t, dirs);
  }

  lemma {:induction false} PutSame(t: Tree, dirs: seq<bool>)
    requires Way(t, dirs)
    ensures Put(t, dirs, At(t, dirs)) == t
    decreases dirs
  {
    if dirs != [] { PutSame(Kid(t, dirs[0]), dirs[1..]); }
  }

  lemma UpEnd(t: Tree, dirs: seq<bool>)
    requires Way(t, dirs)
    ensures UpTo(t, dirs, 0) == BalUp(t, dirs)
  {
    assert dirs[..0] == [] && dirs[0..] == dirs;
  }

  lemma OnlyAgree(m: Memory, m': Memory, t: Tree, sub: Tree)
    requires Only(m, m', Ids(sub))
    ensures Agree(m, m', Ids(t) - Ids(sub)) && m'.Keys == m.Keys
  {
  }

  lemma DepthKid(t: Tree)
    requires t.Node?
    ensures Depth(t.l) < Depth(t) && Depth(t.r) < Depth(t)
  {
  }

  lemma NilIs(m: Memory, t: Tree)
    requires Rep(m, t) && Id(t) == 0
    ensures t.Nil?
  {
  }

  lemma PathSnoc(t: Tree, dirs: seq<bool>, b: bool)
    requires Way(t, dirs)
    ensures (dirs + [b])[..|dirs|] == dirs && forall i: nat | i < |dirs| :: (dirs + [b])[..i] == dirs[..i]
  {
  }

  lemma {:induction false} RepIds(m: Memory, t: Tree)
    requires Rep(m, t)
    ensures Ids(t) <= m.Keys && 0 !in Ids(t)
  {
    if t.Node? { RepIds(m, t.l); RepIds(m, t.r); }
  }

  lemma NewLeaf(m: Memory, leaf: Tree)
    requires leaf.Node? && leaf.l.Nil? && leaf.r.Nil? && leaf.id != 0 && leaf.id in m
        && m[leaf.id] == Cell(leaf.key, 0, 0, leaf.h)
    ensures Rep(m, leaf) && Apart(leaf) && Ids(leaf) == {leaf.id}
  {
  }

  lemma {:induction false} KeyInPlace(m: Memory, t: Tree, id: nat, key: int)
    requires Rep(m, t) && (id, key) in Pairs(t)
    ensures id in m && m[id].key == key && id in Ids(t)
  {
    if (id, key) in Pairs(t.l) { KeyInPlace(m, t.l, id, key); }
    if (id, key) in Pairs(t.r) { KeyInPlace(m, t.r, id, key); }
  }

  lemma SameKey(cmp: Compare, x: int)
    requires Preorder(cmp)
    ensures cmp(x, x) == 0
  {
  }

  lemma {:induction false} AvlAt(t: Tree, dirs: seq<bool>)
    requires Way(t, dirs) && Avl(t)
    ensures Avl(At(t, dirs))
    decreases dirs
  {
    if dirs != [] { AvlAt(Kid(t, dirs[0]), dirs[1..]); }
  }

  lemma KidsThere(m: Memory, t: Tree)
    requires t.Node? && Rep(m, t) && t.id in m && m[t.id].a0 != 0 && m[t.id].a1 != 0
    ensures t.l.Node? && t.r.Node?
  {
  }

  /** Positions down the left spine of the right subtree. */
  lemma SpineAt(t: Tree, j: nat)
    requires t.Node? && Way(t.r, Lefts(j))
    ensures Way(t, [true] + Lefts(j)) && At(t, [true] + Lefts(j)) == At(t.r, Lefts(j))
    ensures SlotOf(t, [true] + Lefts(j)) == if j == 0 then Child(t.id, true) else SlotOf(t.r, Lefts(j))
  {
    assert ([true] + Lefts(j))[1..] == Lefts(j);
  }

  /** The successor's cell and the slot that points to it. */
  lemma SuccessorCells(m: Memory, root: nat, t: Tree, j: nat)
    requires t.Node? && Rep(m, t) && Apart(t) && Way(t.r, Lefts(j)) && At(t.r, Lefts(j)).Node?
    ensures var sp := SlotOf(t, [true] + Lefts(j)); var s := At(t.r, Lefts(j));
            && Way(t, [true] + Lefts(j)) && sp.Child? && sp.id in m && Load(m, root, sp) == s.id && s.id in m
                && t.id in m
            && m[s.id].a1 == Id(s.r) && s.id != t.id
  {
    SpineAt(t, j);
    SlotPoints(m, Id(t), t, [true] + Lefts(j));
    AtRep(m, t.r, Lefts(j)); AtIds(t.r, Lefts(j));
    RepKid(m, At(t.r, Lefts(j)), true);
  }

  lemma StoredKeys(m: Memory, s: Slot, p: nat)
    requires s.Child? && s.id in m
    ensures Stored(m, s, p).Keys == m.Keys
  {
  }

  /** sp is the slot of the node j steps down the left spine. */
  ghost predicate OnSpine(m: Memory, root: nat, t: Tree, j: nat, sp: Slot) {
    && t.Node? && Rep(m, t) && Apart(t) && Way(t.r, Lefts(j)) && At(t.r, Lefts(j)).Node?
        && j + Depth(At(t.r, Lefts(j))) < Depth(t)
    && Way(t, [true] + Lefts(j)) && sp == SlotOf(t, [true] + Lefts(j))
  }

  lemma SpineFacts(m: Memory, root: nat, t: Tree, j: nat, sp: Slot)
    requires OnSpine(m, root, t, j, sp)
    ensures j < Depth(t) && sp.Child? && sp.id in m && Load(m, root, sp) in m
        && Load(m, root, sp) == At(t.r, Lefts(j)).id
    ensures m[Load(m, root, sp)].a0 == Id(At(t.r, Lefts(j)).l) && Rep(m, At(t.r, Lefts(j)))
        && Depth(At(t.r, Lefts(j))) > 0
  {
    hide Rep; hide Apart;
    ApartKids(t); RepKid(m, t, true);
    SuccessorCells(m, root, t, j);
    AtRep(m, t.r, Lefts(j)); RepKid(m, At(t.r, Lefts(j)), false);
  }

  lemma SpineStart(m: Memory, root: nat, t: Tree)
    requires t.Node? && t.r.Node? && Rep(m, t) && Apart(t)
    ensures var sp := Child(t.id, true);
            && OnSpine(m, root, t, 0, sp) && sp.id in m && Load(m, root, sp) in m && Depth(t) > 1
            && m[Load(m, root, sp)].a0 == Id(t.r.l)
  {
    hide Rep; hide Apart;
    LeftsMore(0);
    assert [true] + Lefts(0) == [true];
    DepthKid(t); DepthKid(t.r);
    SpineAt(t, 0);
    SpineFacts(m, root, t, 0, Child(t.id, true));
  }

  lemma SpineNext(m: Memory, root: nat, t: Tree, j: nat, sp: Slot)
    requires OnSpine(m, root, t, j, sp) && sp.Child? && sp.id in m && Load(m, root, sp) in m
        && m[Load(m, root, sp)].a0 != 0
    ensures var sp' := Child(Load(m, root, sp), false);
            && OnSpine(m, root, t, j + 1, sp') && sp'.id in m && Load(m, root, sp') in m && j + 2 < Depth(t)
  {
    hide Rep; hide Apart; hide Depth;
    SpineFacts(m, root, t, j, sp);
    var n := At(t.r, Lefts(j));
    DepthKid(n);
    LeftsMore(j);
    WaySnoc(t.r, Lefts(j), false);
    SpineAt(t, j + 1);
    if n.l.Node? { DepthKid(n.l); }
    SpineFacts(m, root, t, j + 1, Child(Load(m, root, sp), false));
  }

  lemma SpineEnd(m: Memory, root: nat, t: Tree, j: nat, sp: Slot)
    requires OnSpine(m, root, t, j, sp) && sp.Child? && sp.id in m && Load(m, root, sp) in m
        && m[Load(m, root, sp)].a0 == 0
    ensures Way(t.r, Lefts(j)) && At(t.r, Lefts(j)).Node? && At(t.r, Lefts(j)).l.Nil?
    ensures Way(t, [true] + Lefts(j)) && sp == SlotOf(t, [true] + Lefts(j))
  {
    hide Rep; hide Apart; hide Depth;
    SpineFacts(m, root, t, j, sp);
    RepKid(m, At(t.r, Lefts(j)), false);
    NilIs(m, At(t.r, Lefts(j)).l);
  }

  /** The first j of them have been saved. */
  ghost predicate SpineSlots(p: seq<Slot>, d: nat, t: Tree, j: nat) {
    t.Node? && d + j <= |p| && forall i: nat | i < j :: SpineSlot(p, d, t, i)
  }

  ghost predicate SpineSlot(p: seq<Slot>, d: nat, t: Tree, i: nat)
    requires t.Node?
  {
    Way(t, [true] + Lefts(i)) && d + i < |p| && p[d + i] == SlotOf(t, [true] + Lefts(i))
  }

  lemma NoneSaved(p: seq<Slot>, d: nat, t: Tree)
    requires t.Node? && d <= |p|
    ensures SpineSlots(p, d, t, 0)
  {
  }

  lemma SpineSaved(p: seq<Slot>, d: nat, t: Tree, j: nat, sp: Slot, m: Memory, root: nat)
    requires SpineSlots(p, d, t, j) && d + j < |p| && OnSpine(m, root, t, j, sp)
    ensures SpineSlots(p[d + j := sp], d, t, j + 1)
  {
    hide Rep; hide Apart; hide Depth; hide SlotOf; hide Way;
    var p' := p[d + j := sp];
    forall i: nat | i < j + 1 ensures SpineSlot(p', d, t, i) {
      if i < j { assert SpineSlot(p, d, t, i); }
    }
  }

  lemma SpineAll(p: seq<Slot>, d: nat, t: Tree, j: nat)
    requires SpineSlots(p, d, t, j)
    ensures forall i: nat | i < j :: Way(t, [true] + Lefts(i)) && p[d + i] == SlotOf(t, [true] + Lefts(i))
  {
    forall i: nat | i < j ensures Way(t, [true] + Lefts(i)) && p[d + i] == SlotOf(t, [true] + Lefts(i)) {
      assert SpineSlot(p, d, t, i);
    }
  }
}
