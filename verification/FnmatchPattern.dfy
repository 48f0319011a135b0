/** Shell patterns as src/fnmatch.c reads them: tokens, bracket expressions included. */
module FnmatchPattern {
  datatype Flags = Flags(pathname: bool, period: bool, noescape: bool, leadingDir: bool, casefold: bool)

  // ---- characters of the C locale ----

  predicate IsUpper(c: char) { 'A' <= c <= 'Z' }

  predicate IsLower(c: char) { 'a' <= c <= 'z' }

  predicate IsAlpha(c: char) { IsUpper(c) || IsLower(c) }

  predicate IsDigit(c: char) { '0' <= c <= '9' }

  predicate IsGraph(c: char) { '!' <= c <= '~' }

  function ToLower(c: char): char { if IsUpper(c) then (c as int + 32) as char else c }

  function ToUpper(c: char): char { if IsLower(c) then (c as int - 32) as char else c }

  function Fold(c: char, f: Flags): char { if f.casefold then ToLower(c) else c }

  predicate KnownClass(name: string) {
    name in ["alnum", "alpha", "blank", "cntrl", "digit", "graph",
      "lower", "print", "punct", "space", "upper", "xdigit"]
  }

  predicate InClass(name: string, c: char) {
    if name == "alnum" then IsAlpha(c) || IsDigit(c)
    else if name == "alpha" then IsAlpha(c)
    else if name == "blank" then c == ' ' || c == '\t'
    else if name == "cntrl" then c < ' ' || c == '\U{7f}'
    else if name == "digit" then IsDigit(c)
    else if name == "graph" then IsGraph(c)
    else if name == "lower" then IsLower(c)
    else if name == "print" then IsGraph(c) || c == ' '
    else if name == "punct" then IsGraph(c) && !IsAlpha(c) && !IsDigit(c)
    else if name == "space" then c == ' ' || '\t' <= c <= '\r'
    else if name == "upper" then IsUpper(c)
    else name == "xdigit" && (IsDigit(c) || 'a' <= c <= 'f' || 'A' <= c <= 'F')
  }

  // ---- bracket expressions ----

  datatype Item = Single(c: char) | Range(lo: char, hi: char) | Class(name: string) | Nothing

  datatype Bracket = NoClose | Malformed | Closed(neg: bool, items: seq<Item>, next: nat)

  predicate ItemHits(x: Item, c: char, f: Flags) {
    match x
    case Single(y) => Fold(y, f) == Fold(c, f)
    case Range(lo, hi) =>
        lo <= c <= hi || (f.casefold && (Fold(lo, f) <= Fold(c, f) <= Fold(hi, f) || lo <= ToUpper(c) <= hi))
    case Class(name) =>
        InClass(name, c) || (f.casefold && IsAlpha(c) && InClass(name, if IsUpper(c) then ToLower(c) else ToUpper(c)))
    case Nothing => false
  }

  predicate SetHits(items: seq<Item>, c: char, f: Flags) { exists i: nat :: i < |items| && ItemHits(items[i], c, f) }

  /** strstr for a two-character string a]: its first place at or after i, or the pattern's end. */
  function FindEnd(pat: string, i: nat, a: char): (e: nat)
    ensures i <= |pat| ==> i <= e <= |pat| && (e < |pat| ==> e + 1 < |pat| && pat[e] == a && pat[e + 1] == ']')
    decreases |pat| - i
  {
    if i + 1 >= |pat| then |pat| else if pat[i] == a && pat[i + 1] == ']' then i else FindEnd(pat, i + 1, a)
  }

  /** One item at p, and where the next starts. */
  datatype ItemAt = Item(x: Item, next: nat) | BadItem

  function Escaped(pat: string, p: nat, f: Flags): (q: nat)
    requires p < |pat|
    ensures p <= q < |pat|
  {
    if pat[p] == '\\' && !f.noescape && p + 1 < |pat| then p + 1 else p
  }

  function ReadItem(pat: string, p: nat, f: Flags): (r: ItemAt)
    requires p < |pat|
    ensures r.Item? ==> p < r.next <= |pat|
  {
    if pat[p] == '[' && p + 1 < |pat| && (pat[p + 1] == '.' || pat[p + 1] == '=') then
      var e := FindEnd(pat, p + 2, pat[p + 1]);
      if e == |pat| then BadItem else Item(if e == p + 3 then Single(pat[p + 2]) else Nothing, e + 2)
    else if pat[p] == '[' && p + 1 < |pat| && pat[p + 1] == ':' then
      var e := FindEnd(pat, p + 2, ':');
      if e == |pat| || !KnownClass(pat[p + 2..e]) then BadItem else Item(Class(pat[p + 2..e]), e + 2)
    else
      var a := Escaped(pat, p, f);
      if a + 2 < |pat| && pat[a + 1] == '-' && pat[a + 2] != ']' then
        var b := Escaped(pat, a + 2, f);
        Item(Range(pat[a], pat[b]), b + 1)
      else Item(Single(pat[a]), a + 1)
  }

  /** The items from p on, up to the closing bracket, which cannot be the first character. */
  function ReadItems(pat: string, p: nat, first: bool, f: Flags): (r: Bracket)
    requires p <= |pat|
    ensures r.Closed? ==> p < r.next <= |pat|
    decreases |pat| - p
  {
    if !first && p < |pat| && pat[p] == ']' then Closed(false, [], p + 1)
    else if p == |pat| then NoClose
    else
      match ReadItem(pat, p, f)
      case BadItem => Malformed
      case Item(x, next) =>
        var r := ReadItems(pat, next, false, f);
        if r.Closed? then Closed(false, [x] + r.items, r.next) else r
  }

  /** The bracket expression after the '[' at p - 1. */
  function ReadBracket(pat: string, p: nat, f: Flags): (r: Bracket)
    requires p <= |pat|
    ensures r.Closed? ==> p < r.next <= |pat|
  {
    var neg := p < |pat| && (pat[p] == '!' || pat[p] == '^');
    var r := ReadItems(pat, if neg then p + 1 else p, true, f);
    if r.Closed? then Closed(neg, r.items, r.next) else r
  }

  // ---- tokens ----

  datatype Token = End | Star | Any(next: nat) | Set(neg: bool, items: seq<Item>, next: nat) | Lit(c: char,
      next: nat) | Bad

  function TokenAt(pat: string, p: nat, f: Flags): (t: Token)
    requires p <= |pat|
    ensures t.End? <==> p == |pat|
    ensures t.Any? || t.Set? || t.Lit? ==> p < t.next <= |pat|
    ensures t.Star? <==> p < |pat| && pat[p] == '*'
  {
    if p == |pat| then End
    else if pat[p] == '*' then Star
    else if pat[p] == '?' then Any(p + 1)
    else if pat[p] == '[' then
      match ReadBracket(pat, p + 1, f)
      case NoClose => Lit('[', p + 1)
      case Malformed => Bad
      case Closed(neg, items, next) => Set(neg, items, next)
    else if pat[p] == '\\' && !f.noescape then
      if p + 1 == |pat| then Bad else Lit(pat[p + 1], p + 2)
    else Lit(pat[p], p + 1)
  }

  /** `bracket`: does c match, and where does the expression end; -1 when it does not close, -2
      when it is malformed. Neither of those depends on c. The items looked at are counted. */
  method MatchBracket(pat: string, p0: nat, c: char, f: Flags) returns (r: int, q: nat, ghost items: nat)
    requires p0 <= |pat|
    ensures var b := ReadBracket(pat, p0, f);
            match b {
              case NoClose => r == -1
              case Malformed => r == -2
              case Closed(neg, items, next) => q == next && r == if SetHits(items, c, f) != neg then 1 else 0
            }
    ensures items <= |pat| - p0
  {
    q, items := p0, 0;
    var p := p0;
    var neg, hit := false, false;
    if p < |pat| && (pat[p] == '!' || pat[p] == '^') {
      neg := true;
      p := p + 1;
    }
    ghost var start, seen := p, [];
    var first := true;
    NoHits(c, f);
    while first || p == |pat| || pat[p] != ']'
      invariant start <= p <= |pat| && (first ==> p == start)
      invariant hit == SetHits(seen, c, f) && items <= p - p0
      invariant SameRest(ReadItems(pat, start, true, f), ReadItems(pat, p, first, f), seen)
      decreases |pat| - p
    {
      if p == |pat| { return -1, q, items; }
      var item := ReadItem(pat, p, f);
      items := items + 1;
      if item.BadItem? { return -2, q, items; }
      ghost var rest := ReadItems(pat, item.next, false, f);
      RestStep(ReadItems(pat, start, true, f), rest, seen, item.x);
      HitsSnoc(seen, item.x, c, f);
      hit := hit || ItemHits(item.x, c, f);
      seen := seen + [item.x];
      p := item.next;
      first := false;
    }
    RestDone(ReadItems(pat, start, true, f), seen, p + 1);
    r, q := if hit != neg then 1 else 0, p + 1;
  }

  /** whole is what seen and then rest make. */
  predicate SameRest(whole: Bracket, rest: Bracket, seen: seq<Item>) {
    if rest.Closed? then whole == Closed(false, seen + rest.items, rest.next) else whole == rest
  }

  lemma RestStep(whole: Bracket, rest: Bracket, seen: seq<Item>, x: Item)
    requires SameRest(whole, if rest.Closed? then Closed(false, [x] + rest.items, rest.next) else rest, seen)
    ensures rest.Closed? ==> SameRest(whole, Closed(false, rest.items, rest.next), seen + [x])
    ensures !rest.Closed? ==> SameRest(whole, rest, seen + [x])
  {
    if rest.Closed? { assert seen + ([x] + rest.items) == seen + [x] + rest.items; }
  }

  lemma RestDone(whole: Bracket, seen: seq<Item>, next: nat)
    requires SameRest(whole, Closed(false, [], next), seen)
    ensures whole == Closed(false, seen, next)
  {
    assert seen + [] == seen;
  }

  lemma NoHits(c: char, f: Flags)
    ensures !SetHits([], c, f)
  {
  }

  lemma HitsSnoc(items: seq<Item>, x: Item, c: char, f: Flags)
    ensures SetHits(items + [x], c, f) <==> SetHits(items, c, f) || ItemHits(x, c, f)
  {
    var t := items + [x];
    if SetHits(items, c, f) { var i: nat :| i < |items| && ItemHits(items[i], c, f); assert t[i] == items[i]; }
    assert t[|items|] == x;
    if SetHits(t, c, f) && !ItemHits(x, c, f) {
      var i: nat :| i < |t| && ItemHits(t[i], c, f);
      assert t[i] == items[i];
    }
  }
}
