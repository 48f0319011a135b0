/** What the patterns of src/fnmatch.c mean, said of their text and the characters they match, without the tokens
    they are read as. */
module FnmatchLaws {
  import opened FnmatchPattern
  import opened Fnmatch

  // ---- characters ----

  const NAMES := ["upper", "lower", "alpha", "digit", "xdigit", "alnum", "punct", "graph", "print", "blank", "space",
    "cntrl"]

  /** The characters of the C locale by their codes. */
  predicate InNamed(name: string, x: int) {
    match name
    case "upper" => 65 <= x <= 90
    case "lower" => 97 <= x <= 122
    case "alpha" => 65 <= x <= 90 || 97 <= x <= 122
    case "digit" => 48 <= x <= 57
    case "xdigit" => 48 <= x <= 57 || 65 <= x <= 70 || 97 <= x <= 102
    case "alnum" => 48 <= x <= 57 || 65 <= x <= 90 || 97 <= x <= 122
    case "punct" => 33 <= x <= 47 || 58 <= x <= 64 || 91 <= x <= 96 || 123 <= x <= 126
    case "graph" => 33 <= x <= 126
    case "print" => 32 <= x <= 126
    case "blank" => x == 9 || x == 32
    case "space" => 9 <= x <= 13 || x == 32
    case "cntrl" => 0 <= x <= 31 || x == 127
    case _ => false
  }

  lemma ClassIs(name: string, c: char)
    ensures KnownClass(name) <==> name in NAMES
    ensures name in NAMES ==> (InClass(name, c) <==> InNamed(name, c as int))
  {
  }

  const UPPER := "ABCDEFGHIJKLMNOPQRSTUVWXYZ"
  const LOWER := "abcdefghijklmnopqrstuvwxyz"

  /** Letters change case with their place in the alphabet, and nothing else does. */
  lemma CaseIs(c: char)
    ensures forall i | 0 <= i < 26 :: ToLower(UPPER[i]) == LOWER[i] && ToUpper(LOWER[i]) == UPPER[i]
    ensures !(65 <= c as int <= 90) ==> ToLower(c) == c
    ensures !(97 <= c as int <= 122) ==> ToUpper(c) == c
  {
    forall i | 0 <= i < 26 ensures ToLower(UPPER[i]) == LOWER[i] && ToUpper(LOWER[i]) == UPPER[i] {
      assert UPPER[i] as int == 65 + i && LOWER[i] as int == 97 + i;
    }
  }

  // ---- what a bracket expression says ----

  datatype Part = Only(c: char) | To(lo: char, hi: char) | Named(name: string)

  /** Characters that stand for themselves between brackets wherever they are. */
  predicate Ordinary(c: char) { c !in "[]\\-!^" }

  predicate Fair(p: Part) {
    match p
    case Only(c) => Ordinary(c)
    case To(lo, hi) => Ordinary(lo) && Ordinary(hi)
    case Named(name) => name in NAMES
  }

  predicate AllFair(ps: seq<Part>) { forall i | 0 <= i < |ps| :: Fair(ps[i]) }

  /** How it is written. */
  function Written(p: Part): string {
    match p
    case Only(c) => [c]
    case To(lo, hi) => [lo, '-', hi]
    case Named(name) => "[:" + name + ":]"
  }

  function WrittenAll(ps: seq<Part>): string { if ps == [] then [] else Written(ps[0]) + WrittenAll(ps[1..]) }

  /** What it contains. */
  predicate Has(p: Part, c: char) {
    match p
    case Only(x) => c == x
    case To(lo, hi) => lo as int <= c as int <= hi as int
    case Named(name) => InNamed(name, c as int)
  }

  predicate Contains(ps: seq<Part>, c: char) { exists i :: 0 <= i < |ps| && Has(ps[i], c) }

  /** A range that letters of either case can be looked up in: with FNM_CASEFOLD it contains exactly the characters
      of which it contains the lower or the upper case. */
  predicate EitherCase(lo: char, hi: char) {
    if IsUpper(lo) == IsUpper(hi) then true
    else if IsUpper(lo) then lo == 'A' || hi < 'a'
    else lo > ToLower(hi)
  }

  predicate InEitherCase(lo: char, hi: char, c: char) { lo <= ToLower(c) <= hi || lo <= ToUpper(c) <= hi }

  /** For every range with FNM_CASEFOLD: exactly then. */
  lemma FoldedRange(lo: char, hi: char, f: Flags)
    requires f.casefold
    ensures (forall c :: ItemHits(Range(lo, hi), c, f) <==> InEitherCase(lo, hi, c)) <==> EitherCase(lo, hi)
  {
    if EitherCase(lo, hi) {
      forall c ensures ItemHits(Range(lo, hi), c, f) <==> InEitherCase(lo, hi, c) { }
    } else {
      var c := if IsUpper(lo) then 'A' else if lo < 'A' then '[' else lo;
      assert ItemHits(Range(lo, hi), c, f) != InEitherCase(lo, hi, c);
    }
  }

  function ItemOf(p: Part): Item {
    match p
    case Only(c) => Single(c)
    case To(lo, hi) => Range(lo, hi)
    case Named(name) => Class(name)
  }

  function Items(ps: seq<Part>): (r: seq<Item>)
    ensures |r| == |ps| && forall i | 0 <= i < |ps| :: r[i] == ItemOf(ps[i])
  {
    seq(|ps|, i requires 0 <= i < |ps| => ItemOf(ps[i]))
  }

  /** pat goes on at p with t. */
  predicate At(pat: string, p: nat, t: string) { p + |t| <= |pat| && pat[p..p + |t|] == t }

  lemma AtSplit(pat: string, p: nat, a: string, b: string)
    requires At(pat, p, a + b)
    ensures At(pat, p, a) && At(pat, p + |a|, b)
  {
    var t := pat[p..p + |a + b|];
    assert t[..|a|] == a && t[|a|..] == b;
    assert pat[p..p + |a|] == t[..|a|] && pat[p + |a|..p + |a| + |b|] == t[|a|..];
  }

  lemma AtChar(pat: string, p: nat, t: string, i: nat)
    requires At(pat, p, t) && i < |t|
    ensures pat[p + i] == t[i]
  {
    assert pat[p..p + |t|][i] == pat[p + i];
  }

  lemma {:induction false} EndFound(pat: string, i: nat, name: string, k: nat)
    requires k <= |name| && i == k + (i - k) && i >= k && At(pat, i - k, name + ":]") && ':' !in name
    ensures FindEnd(pat, i, ':') == i - k + |name|
    decreases |name| - k
  {
    var t := name + ":]";
    AtChar(pat, i - k, t, k); AtChar(pat, i - k, t, |name|); AtChar(pat, i - k, t, |name| + 1);
    if k < |name| {
      assert t[k] == name[k];
      EndFound(pat, i + 1, name, k + 1);
    }
  }

  lemma NoColon(name: string)
    requires name in NAMES
    ensures ':' !in name && KnownClass(name)
  {
    ClassIs(name, 'a');
  }

  /** An item is read as what it says, if nothing that follows makes it a range. */
  lemma PartRead(pat: string, p: nat, part: Part, f: Flags)
    requires Fair(part) && At(pat, p, Written(part)) && p + |Written(part)| < |pat| && pat[p + |Written(part)|] != '-'
    ensures p < |pat| && ReadItem(pat, p, f) == Item(ItemOf(part), p + |Written(part)|)
  {
    hide ReadItem; hide At;
    match part
    case Only(c) => OnlyRead(pat, p, c, f);
    case To(lo, hi) => RangeRead(pat, p, lo, hi, f);
    case Named(name) => NamedRead(pat, p, name, f);
  }

  lemma OnlyRead(pat: string, p: nat, c: char, f: Flags)
    requires Ordinary(c) && At(pat, p, [c]) && p + 1 < |pat| && pat[p + 1] != '-'
    ensures ReadItem(pat, p, f) == Item(Single(c), p + 1)
  {
    AtChar(pat, p, [c], 0);
  }

  lemma RangeRead(pat: string, p: nat, lo: char, hi: char, f: Flags)
    requires Ordinary(lo) && Ordinary(hi) && At(pat, p, [lo, '-', hi])
    ensures ReadItem(pat, p, f) == Item(Range(lo, hi), p + 3)
  {
    AtChar(pat, p, [lo, '-', hi], 0); AtChar(pat, p, [lo, '-', hi], 1); AtChar(pat, p, [lo, '-', hi], 2);
  }

  lemma NamedRead(pat: string, p: nat, name: string, f: Flags)
    requires name in NAMES && At(pat, p, "[:" + name + ":]")
    ensures p < |pat| && ReadItem(pat, p, f) == Item(Class(name), p + |name| + 4)
  {
    hide KnownClass; hide FindEnd;
    NoColon(name);
    AtStart(pat, p, name);
    EndFound(pat, p + 2, name, 0);
  }

  lemma AtStart(pat: string, p: nat, name: string)
    requires At(pat, p, "[:" + name + ":]")
    ensures p + |name| + 4 <= |pat| && pat[p] == '[' && pat[p + 1] == ':' && pat[p + 2..p + 2 + |name|] == name
    ensures At(pat, p + 2, name + ":]")
  {
    var t := "[:" + name + ":]";
    AtChar(pat, p, t, 0); AtChar(pat, p, t, 1);
    assert t == "[:" + (name + ":]");
    AtSplit(pat, p, "[:", name + ":]");
    AtSplit(pat, p + 2, name, ":]");
  }

  lemma {:induction false} PartsRead(pat: string, p: nat, ps: seq<Part>, first: bool, f: Flags)
    requires AllFair(ps) && At(pat, p, WrittenAll(ps) + "]") && (first ==> ps != [])
    ensures ReadItems(pat, p, first, f) == Closed(false, Items(ps), p + |WrittenAll(ps)| + 1)
    decreases |ps|
  {
    hide ReadItem; hide ReadItems; hide Written; hide Fair; hide At; hide WrittenAll;
    if ps == [] {
      Closes(pat, p, ps, f);
    } else {
      FirstPart(pat, p, ps, f);
      PartsRead(pat, p + |Written(ps[0])|, ps[1..], false, f);
      AddPart(pat, p, ps, first, f);
    }
  }

  lemma Closes(pat: string, p: nat, ps: seq<Part>, f: Flags)
    requires ps == [] && At(pat, p, WrittenAll(ps) + "]")
    ensures ReadItems(pat, p, false, f) == Closed(false, Items(ps), p + |WrittenAll(ps)| + 1)
  {
    assert WrittenAll(ps) + "]" == "]";
    AtChar(pat, p, "]", 0);
  }

  lemma FirstPart(pat: string, p: nat, ps: seq<Part>, f: Flags)
    requires AllFair(ps) && ps != [] && At(pat, p, WrittenAll(ps) + "]")
    ensures p < |pat| && pat[p] != ']' && ReadItem(pat, p, f) == Item(ItemOf(ps[0]), p + |Written(ps[0])|)
    ensures AllFair(ps[1..]) && At(pat, p + |Written(ps[0])|, WrittenAll(ps[1..]) + "]")
  {
    hide ReadItem; hide Written; hide Fair; hide At;
    var a, rest := Written(ps[0]), WrittenAll(ps[1..]) + "]";
    assert WrittenAll(ps) + "]" == a + rest;
    AtSplit(pat, p, a, rest);
    NextNotDash(ps[1..]);
    AtChar(pat, p + |a|, rest, 0);
    PartStart(ps[0]);
    AtChar(pat, p, a, 0);
    AtInside(pat, p + |a|, rest);
    PartRead(pat, p, ps[0], f);
  }

  lemma AtInside(pat: string, p: nat, t: string)
    requires At(pat, p, t)
    ensures p + |t| <= |pat|
  {
  }

  lemma AddPart(pat: string, p: nat, ps: seq<Part>, first: bool, f: Flags)
    requires ps != [] && p < |pat| && pat[p] != ']'
    requires var q := p + |Written(ps[0])|;
             && ReadItem(pat, p, f) == Item(ItemOf(ps[0]), q) && q <= |pat|
             && ReadItems(pat, q, false, f) == Closed(false, Items(ps[1..]), q + |WrittenAll(ps[1..])| + 1)
    ensures ReadItems(pat, p, first, f) == Closed(false, Items(ps), p + |WrittenAll(ps)| + 1)
  {
    hide ReadItem; hide Written;
    assert Items(ps) == [ItemOf(ps[0])] + Items(ps[1..]);
    assert |WrittenAll(ps)| == |Written(ps[0])| + |WrittenAll(ps[1..])|;
  }

  lemma PartStart(p: Part)
    requires Fair(p)
    ensures Written(p) != [] && Written(p)[0] !in "]-!^"
  {
  }

  lemma NextNotDash(ps: seq<Part>)
    requires AllFair(ps)
    ensures (WrittenAll(ps) + "]")[0] != '-'
  {
    if ps != [] { PartStart(ps[0]); }
  }

  /** How a bracket expression is written. */
  function Brackets(neg: bool, ps: seq<Part>): string { (if neg then "[!" else "[") + (WrittenAll(ps) + "]") }

  lemma BracketRead(pat: string, p: nat, neg: bool, ps: seq<Part>, f: Flags)
    requires AllFair(ps) && ps != [] && At(pat, p, Brackets(neg, ps))
    ensures p < |pat| && TokenAt(pat, p, f) == Set(neg, Items(ps), p + |Brackets(neg, ps)|)
  {
    hide ReadItems; hide Written; hide Fair; hide At; hide WrittenAll;
    var a := if neg then "[!" else "[";
    AtSplit(pat, p, a, WrittenAll(ps) + "]");
    AtInside(pat, p + |a|, WrittenAll(ps) + "]");
    AtChar(pat, p, a, 0);
    if neg { AtChar(pat, p, a, 1); }
    Opening(ps);
    AtChar(pat, p + |a|, WrittenAll(ps) + "]", 0);
    PartsRead(pat, p + |a|, ps, true, f);
  }

  lemma Opening(ps: seq<Part>)
    requires AllFair(ps) && ps != []
    ensures (WrittenAll(ps) + "]")[0] !in "]-!^"
  {
    hide Written;
    PartStart(ps[0]);
  }

  /** With or without regard to case. */
  predicate Member(ps: seq<Part>, c: char, f: Flags) {
    if f.casefold then Contains(ps, ToLower(c)) || Contains(ps, ToUpper(c)) else Contains(ps, c)
  }

  predicate Foldable(ps: seq<Part>) { forall i | 0 <= i < |ps| :: ps[i].To? ==> EitherCase(ps[i].lo, ps[i].hi) }

  lemma PartHits(p: Part, c: char, f: Flags)
    requires Fair(p) && (f.casefold && p.To? ==> EitherCase(p.lo, p.hi))
    ensures ItemHits(ItemOf(p), c, f) <==> if f.casefold then Has(p, ToLower(c)) || Has(p, ToUpper(c)) else Has(p, c)
  {
    match p
    case Only(x) => if f.casefold { OnlyFolded(x, c); }
    case To(lo, hi) =>
      if f.casefold {
        FoldedRange(lo, hi, f);
        assert ItemHits(Range(lo, hi), c, f) <==> InEitherCase(lo, hi, c);
      }
    case Named(name) => ClassIs(name, c); ClassIs(name, ToLower(c)); ClassIs(name, ToUpper(c));
  }

  lemma OnlyFolded(x: char, c: char)
    ensures ToLower(x) == ToLower(c) <==> ToLower(c) == x || ToUpper(c) == x
  {
  }

  lemma SetIs(ps: seq<Part>, c: char, f: Flags)
    requires AllFair(ps) && (f.casefold ==> Foldable(ps))
    ensures SetHits(Items(ps), c, f) <==> Member(ps, c, f)
  {
    hide ItemHits; hide Has; hide Fair; hide EitherCase;
    forall i | 0 <= i < |ps|
      ensures ItemHits(Items(ps)[i], c, f) <==>
          if f.casefold then Has(ps[i], ToLower(c)) || Has(ps[i], ToUpper(c)) else Has(ps[i], c)
    {
      PartHits(ps[i], c, f);
    }
    if SetHits(Items(ps), c, f) { var i: nat :| i < |Items(ps)| && ItemHits(Items(ps)[i], c, f); }
    if Contains(ps, c) { var i :| 0 <= i < |ps| && Has(ps[i], c); }
    if Contains(ps, ToLower(c)) { var i :| 0 <= i < |ps| && Has(ps[i], ToLower(c)); }
    if Contains(ps, ToUpper(c)) { var i :| 0 <= i < |ps| && Has(ps[i], ToUpper(c)); }
  }

  // ---- the laws ----

  /** A bracket expression takes one character that it contains, or, negated, does not: but no slash of a path and
      no leading period. */
  lemma BracketLaw(pat: string, p: nat, neg: bool, ps: seq<Part>, str: string, s: nat, f: Flags)
    requires AllFair(ps) && ps != [] && At(pat, p, Brackets(neg, ps)) && s <= |str| && (f.casefold ==> Foldable(ps))
    ensures var q := p + |Brackets(neg, ps)|;
            q <= |pat| && (Matches(pat, p, str, s, f) <==>
                && s < |str| && !Slash(str, s, f) && !LeadingDot(str, s, f) && Member(ps, str[s], f) != neg
                && Matches(pat, q, str, s + 1, f))
  {
    hide TokenAt; hide SetHits; hide Member; hide Brackets;
    BracketRead(pat, p, neg, ps, f);
    if s < |str| { SetIs(ps, str[s], f); }
  }

  /** The same, of a pattern that is nothing else. */
  lemma BracketAlone(neg: bool, ps: seq<Part>, str: string, f: Flags)
    requires AllFair(ps) && ps != [] && (f.casefold ==> Foldable(ps)) && !f.pathname && !f.period && !f.leadingDir
    ensures Matches(Brackets(neg, ps), 0, str, 0, f) <==> |str| == 1 && Member(ps, str[0], f) != neg
  {
    hide Member; hide Brackets;
    var pat := Brackets(neg, ps);
    assert At(pat, 0, pat);
    BracketLaw(pat, 0, neg, ps, str, 0, f);
    if |str| > 0 { EndLaw(pat, |pat|, str, 1, f); }
  }

  /** Where that is not so: [Z-a] with FNM_CASEFOLD refuses A, although it contains a, and [@-Z] takes an opening
      bracket, which has no case. */
  lemma FoldedExamples(f: Flags)
    requires f.casefold && !f.pathname && !f.period && !f.leadingDir
    ensures !Matches("[Z-a]", 0, "A", 0, f) && Matches("[Z-a]", 0, "a", 0, f) && Matches("[@-Z]", 0, "[", 0, f)
  {
    hide TokenAt;
    BracketExample("[Z-a]", 'Z', 'a', f); BracketExample("[@-Z]", '@', 'Z', f);
    EndLaw("[Z-a]", 5, "a", 1, f); EndLaw("[@-Z]", 5, "[", 1, f);
    RangeExample("A", 'Z', 'a', f); RangeExample("a", 'Z', 'a', f); RangeExample("[", '@', 'Z', f);
  }

  lemma BracketExample(pat: string, lo: char, hi: char, f: Flags)
    requires Ordinary(lo) && Ordinary(hi) && pat == ['[', lo, '-', hi, ']']
    ensures TokenAt(pat, 0, f) == Set(false, [Range(lo, hi)], 5)
  {
    var ps := [To(lo, hi)];
    assert ps[1..] == [] && WrittenAll([]) == "";
    assert WrittenAll(ps) == [lo, '-', hi] + "";
    assert Brackets(false, ps) == pat && At(pat, 0, pat);
    BracketRead(pat, 0, false, ps, f);
  }

  lemma RangeExample(str: string, lo: char, hi: char, f: Flags)
    requires |str| == 1
    ensures Fits(Set(false, [Range(lo, hi)], 5), str, 0, f) <==> !Slash(str, 0, f) && ItemHits(Range(lo, hi), str[0], f)
  {
    var items := [Range(lo, hi)];
    if ItemHits(items[0], str[0], f) { assert SetHits(items, str[0], f); }
  }

  predicate SameChar(a: char, b: char, f: Flags) { if f.casefold then ToLower(a) == ToLower(b) else a == b }

  /** Other characters take themselves. */
  lemma LiteralLaw(pat: string, p: nat, str: string, s: nat, f: Flags)
    requires p < |pat| && s <= |str| && pat[p] !in "*?[" && (pat[p] == '\\' ==> f.noescape)
    ensures Matches(pat, p, str, s, f) <==>
        s < |str| && SameChar(pat[p], str[s], f) && Matches(pat, p + 1, str, s + 1, f)
  {
    assert TokenAt(pat, p, f) == Lit(pat[p], p + 1);
  }

  /** A backslash makes the character behind it take itself, whatever it is; one at the end matches nothing. */
  lemma EscapeLaw(pat: string, p: nat, str: string, s: nat, f: Flags)
    requires p < |pat| && s <= |str| && pat[p] == '\\' && !f.noescape
    ensures p + 1 < |pat| ==>
        (Matches(pat, p, str, s, f) <==>
            s < |str| && SameChar(pat[p + 1], str[s], f) && Matches(pat, p + 2, str, s + 1, f))
    ensures p + 1 == |pat| ==> !Matches(pat, p, str, s, f)
  {
    if p + 1 < |pat| { assert TokenAt(pat, p, f) == Lit(pat[p + 1], p + 2); }
  }

  lemma QuestionLaw(pat: string, p: nat, str: string, s: nat, f: Flags)
    requires p < |pat| && s <= |str| && pat[p] == '?'
    ensures Matches(pat, p, str, s, f) <==>
        && s < |str| && !(f.pathname && str[s] == '/')
        && !(f.period && str[s] == '.' && (s == 0 || (f.pathname && str[s - 1] == '/')))
        && Matches(pat, p + 1, str, s + 1, f)
  {
    assert TokenAt(pat, p, f) == Any(p + 1);
  }

  /** A star takes any number of characters, but no slash of a path and no leading period, not even to take none in
      front of one. */
  lemma StarLaw(pat: string, p: nat, str: string, s: nat, f: Flags)
    requires p < |pat| && s <= |str| && pat[p] == '*'
    ensures Matches(pat, p, str, s, f) <==>
        && !(s < |str| && f.period && str[s] == '.' && (s == 0 || (f.pathname && str[s - 1] == '/')))
        && exists j: nat :: s <= j <= |str| && Matches(pat, p + 1, str, j, f) && NoSlashIn(str, s, j, f)
  {
    hide Matches;
    if LeadingDot(str, s, f) {
      StarBlocked(pat, p, str, s, f);
    } else {
      var q := p + 1;
      StarEveryLength(pat, p, q, str, s, f);
      forall j: nat ensures Takes(pat, q, str, s, f, j) <==>
          s <= j <= |str| && Matches(pat, q, str, j, f) && NoSlashIn(str, s, j, f) {
        if s <= j <= |str| { SwallowsAll(str, s, j, f); }
      }
    }
  }

  lemma SwallowsAll(str: string, s: nat, j: nat, f: Flags)
    requires s <= j <= |str| && !LeadingDot(str, s, f)
    ensures (forall x | s <= x < j :: Swallows(str, x, f)) <==> NoSlashIn(str, s, j, f)
  {
    if NoSlashIn(str, s, j, f) { forall x | s <= x < j ensures Swallows(str, x, f) { NoDotWithin(str, s, j, x, f); } }
    if forall x | s <= x < j :: Swallows(str, x, f) {
      forall x | s <= x < j && f.pathname ensures str[x] != '/' { assert Swallows(str, x, f); }
    }
  }

  lemma StarBlocked(pat: string, p: nat, str: string, s: nat, f: Flags)
    requires p < |pat| && s <= |str| && pat[p] == '*' && LeadingDot(str, s, f)
    ensures !Matches(pat, p, str, s, f)
  {
    assert TokenAt(pat, p, f).Star?;
  }

  predicate NoSlashIn(str: string, s: nat, j: nat, f: Flags) {
    f.pathname ==> forall x | s <= x < j && x < |str| :: str[x] != '/'
  }

  /** Behind the first character a leading period needs a slash before it. */
  lemma NoDotWithin(str: string, s: nat, j: nat, x: nat, f: Flags)
    requires s <= x < j <= |str| && NoSlashIn(str, s, j, f) && !LeadingDot(str, s, f)
    ensures Swallows(str, x, f)
  {
    if x > s { assert f.pathname ==> str[x - 1] != '/'; }
  }

  lemma EndLaw(pat: string, p: nat, str: string, s: nat, f: Flags)
    requires p == |pat| && s <= |str|
    ensures Matches(pat, p, str, s, f) <==> s == |str| || (f.leadingDir && str[s] == '/')
  {
  }

  /** An opening bracket that is never closed takes itself. */
  lemma UnclosedLaw(pat: string, p: nat, str: string, s: nat, f: Flags)
    requires p < |pat| && s <= |str| && pat[p] == '[' && (forall i | p < i < |pat| :: pat[i] != ']' && pat[i] != '[')
    ensures Matches(pat, p, str, s, f) <==> s < |str| && str[s] == '[' && Matches(pat, p + 1, str, s + 1, f)
  {
    hide ReadItems;
    var neg := p + 1 < |pat| && (pat[p + 1] == '!' || pat[p + 1] == '^');
    NeverCloses(pat, if neg then p + 2 else p + 1, true, f);
    assert TokenAt(pat, p, f) == Lit('[', p + 1);
    BracketFolds(f);
  }

  lemma BracketFolds(f: Flags)
    ensures forall c :: Fold('[', f) == Fold(c, f) <==> c == '['
  {
  }

  lemma {:induction false} NeverCloses(pat: string, p: nat, first: bool, f: Flags)
    requires p <= |pat| && forall i | p <= i < |pat| :: pat[i] != ']' && pat[i] != '['
    ensures ReadItems(pat, p, first, f) == NoClose
    decreases |pat| - p
  {
    if p < |pat| {
      var r := ReadItem(pat, p, f);
      NeverCloses(pat, r.next, false, f);
    }
  }
}
