/** `fnmatch` of src/fnmatch.c: one remembered star is enough. */
module Fnmatch {
  import opened FnmatchPattern

  // ---- the declarative matcher ----

  /** A period that must be matched by a period. */
  predicate LeadingDot(str: string, s: nat, f: Flags) {
    f.period && s < |str| && str[s] == '.' && (s == 0 || (f.pathname && str[s - 1] == '/'))
  }

  predicate Slash(str: string, s: nat, f: Flags) { f.pathname && s < |str| && str[s] == '/' }

  /** What a star may swallow. */
  predicate Swallows(str: string, s: nat, f: Flags) { s < |str| && !Slash(str, s, f) && !LeadingDot(str, s, f) }

  /** A token that stands for one character matches the character at s. */
  predicate Fits(t: Token, str: string, s: nat, f: Flags) {
    s < |str| &&
    match t
    case Any(_) => !Slash(str, s, f)
    case Set(neg, items, _) => !Slash(str, s, f) && SetHits(items, str[s], f) != neg
    case Lit(c, _) => Fold(c, f) == Fold(str[s], f)
    case _ => false
  }

  predicate IsSingle(t: Token) { t.Any? || t.Set? || t.Lit? }

  /** A leading period stops everything but a period and the pattern's end. */
  predicate Blocked(t: Token, str: string, s: nat, f: Flags) {
    LeadingDot(str, s, f) && !(t.Lit? && t.c == '.') && !t.End?
  }

  /** The pattern from p on matches the string from s on, every star tried at every length. */
  ghost predicate Matches(pat: string, p: nat, str: string, s: nat, f: Flags)
    requires p <= |pat| && s <= |str|
    decreases |pat| - p, |str| - s
  {
    var t := TokenAt(pat, p, f);
    !Blocked(t, str, s, f) &&
    match t
    case End => s == |str| || (f.leadingDir && str[s] == '/')
    case Star => Matches(pat, p + 1, str, s, f) || (Swallows(str, s, f) && Matches(pat, p, str, s + 1, f))
    case Bad => false
    case _ => Fits(t, str, s, f) && Matches(pat, t.next, str, s + 1, f)
  }

  /** What is left to try for a star that is followed by p and has swallowed up to s: that it
      swallows more. */
  ghost predicate More(pat: string, p: nat, str: string, s: nat, f: Flags)
    requires p <= |pat| && s <= |str|
    decreases |str| - s
  {
    Swallows(str, s, f) && (Matches(pat, p, str, s + 1, f) || More(pat, p, str, s + 1, f))
  }

  /** A star before p, at s: it swallows nothing, or more. */
  lemma {:induction false} StarIs(pat: string, p: nat, str: string, s: nat, f: Flags)
    requires p < |pat| && pat[p] == '*' && s <= |str| && !LeadingDot(str, s, f)
    ensures Matches(pat, p, str, s, f) <==> Matches(pat, p + 1, str, s, f) || More(pat, p + 1, str, s, f)
    decreases |str| - s
  {
    if Swallows(str, s, f) {
      NoDotAfter(str, s, f);
      StarIs(pat, p, str, s + 1, f);
    }
  }

  /** A star before p takes the text from s up to j. */
  ghost predicate Takes(pat: string, p: nat, str: string, s: nat, f: Flags, j: nat)
    requires p <= |pat|
  {
    s <= j <= |str| && Matches(pat, p, str, j, f) && forall x | s <= x < j :: Swallows(str, x, f)
  }

  /** A star matches by some length of what it may swallow. */
  lemma {:induction false} StarEveryLength(pat: string, p: nat, q: nat, str: string, s: nat, f: Flags)
    requires p < |pat| && q == p + 1 && pat[p] == '*' && s <= |str| && !LeadingDot(str, s, f)
    ensures Matches(pat, p, str, s, f) <==> exists j: nat :: Takes(pat, q, str, s, f, j)
    decreases |str| - s
  {
    StarIs(pat, p, str, s, f);
    if Matches(pat, q, str, s, f) {
      assert Takes(pat, q, str, s, f, s);
    } else if More(pat, q, str, s, f) {
      var j := MoreWitness(pat, q, str, s, f);
      assert Takes(pat, q, str, s, f, j);
    } else if j: nat :| Takes(pat, q, str, s, f, j) {
      assert Swallows(str, s, f);
      NoDotAfter(str, s, f);
      assert Takes(pat, q, str, s + 1, f, j);
      StarEveryLength(pat, p, q, str, s + 1, f);
    }
  }

  /** What a star swallows is not followed by a leading period. */
  lemma NoDotAfter(str: string, s: nat, f: Flags)
    requires Swallows(str, s, f)
    ensures !LeadingDot(str, s + 1, f)
  {
  }

  // ---- remembering only the last star ----

  /** From (p, s) the single-character tokens up to p' match the text up to s'. */
  ghost predicate Path(pat: string, p: nat, str: string, s: nat, p': nat, s': nat, f: Flags)
    requires p <= |pat|
    decreases |pat| - p
  {
    s <= s' <= |str| &&
    if p == p' then s == s'
    else var t := TokenAt(pat, p, f); IsSingle(t) && Fits(t, str, s, f) && Path(pat, t.next, str, s + 1, p', s', f)
  }

  lemma {:induction false} PathSnoc(pat: string, p: nat, str: string, s: nat, p': nat, s': nat, f: Flags)
    requires p <= |pat| && p' <= |pat| && Path(pat, p, str, s, p', s', f)
    requires var t := TokenAt(pat, p', f); IsSingle(t) && Fits(t, str, s', f)
    ensures Path(pat, p, str, s, TokenAt(pat, p', f).next, s' + 1, f)
    decreases |pat| - p
  {
    PathForward(pat, p, str, s, p', s', f);
    if p != p' {
      var t := TokenAt(pat, p, f);
      PathSnoc(pat, t.next, str, s + 1, p', s', f);
    }
  }

  lemma {:induction false} PathForward(pat: string, p: nat, str: string, s: nat, p': nat, s': nat, f: Flags)
    requires p <= |pat| && Path(pat, p, str, s, p', s', f)
    ensures p <= p' <= |pat|
    decreases |pat| - p
  {
    if p != p' { PathForward(pat, TokenAt(pat, p, f).next, str, s + 1, p', s', f); }
  }

  /** A match from (p, j) goes along the same tokens: it passes p' after as many characters. */
  lemma {:induction false} MatchFollows(pat: string, p: nat, str: string, s: nat, j: nat, p': nat, s': nat, f: Flags)
    requires p <= |pat| && p' <= |pat| && s <= s' && j <= |str| && Path(pat, p, str, s, p', s', f)
        && Matches(pat, p, str, j, f)
    ensures j + (s' - s) <= |str| && Matches(pat, p', str, j + (s' - s), f) && Path(pat, p, str, j, p', j + (s' - s), f)
    decreases |pat| - p
  {
    if p != p' {
      MatchFollows(pat, TokenAt(pat, p, f).next, str, s + 1, j + 1, p', s', f);
    }
  }

  /** Two paths along the same tokens, one from s and one from j: a slash at x on the second has a
      slash as far back as j is ahead of s. */
  lemma {:induction false} SlashBack(pat: string, p: nat, str: string, s: nat, j: nat, p': nat, s': nat, f: Flags,
      x: nat)
    requires p <= |pat| && s <= s' && Path(pat, p, str, s, p', s', f) && Path(pat, p, str, j, p', j + (s' - s), f)
    requires j <= x < j + (s' - s) && Slash(str, x, f)
    ensures Slash(str, s + (x - j), f)
    decreases |pat| - p
  {
    if p != p' {
      var t := TokenAt(pat, p, f);
      if x == j {
        SlashAlone(t, str, s, j, f);
      } else {
        SlashBack(pat, t.next, str, s + 1, j + 1, p', s', f, x);
      }
    }
  }

  /** Only a slash folds to what a slash folds to. */
  lemma SlashAlone(t: Token, str: string, s: nat, j: nat, f: Flags)
    requires IsSingle(t) && Fits(t, str, s, f) && Fits(t, str, j, f) && Slash(str, j, f)
    ensures Slash(str, s, f)
  {
  }

  /** No slash in [S, j) and none in any stretch that repeats it: none in [s, s'). */
  lemma {:induction false} NoSlash(pat: string, P: nat, str: string, S: nat, j: nat, p: nat, s: nat, f: Flags, x: nat)
    requires P <= |pat| && S <= s && S < j && Path(pat, P, str, S, p, s, f) && Path(pat, P, str, j, p, j + (s - S), f)
    requires forall y | S <= y < j :: !Slash(str, y, f)
    requires S <= x < j + (s - S)
    ensures !Slash(str, x, f)
    decreases x
  {
    if x >= j && Slash(str, x, f) {
      SlashBack(pat, P, str, S, j, p, s, f, x);
      NoSlash(pat, P, str, S, j, p, s, f, S + (x - j));
    }
  }

  /** The places a star has swallowed when it goes on to match later. */
  lemma {:induction false} MoreWitness(pat: string, p: nat, str: string, s: nat, f: Flags) returns (j: nat)
    requires p <= |pat| && s <= |str| && More(pat, p, str, s, f)
    ensures s < j <= |str| && Matches(pat, p, str, j, f) && forall x | s <= x < j :: Swallows(str, x, f)
    decreases |str| - s
  {
    if Matches(pat, p, str, s + 1, f) { j := s + 1; } else { j := MoreWitness(pat, p, str, s + 1, f); }
  }

  /** A star that may swallow up to j, where the pattern goes on, matches. */
  lemma {:induction false} StarReaches(pat: string, p: nat, str: string, s: nat, j: nat, f: Flags)
    requires p < |pat| && pat[p] == '*' && s <= j <= |str| && Matches(pat, p, str, j, f) && !LeadingDot(str, s, f)
    requires forall x | s <= x < j :: Swallows(str, x, f)
    ensures Matches(pat, p, str, s, f)
    decreases j - s
  {
    if s < j {
      NoDotAfter(str, s, f);
      StarReaches(pat, p, str, s + 1, j, f);
    }
  }

  /** The exchange: when a second star is reached along single characters, whatever the first star
      could still do by swallowing more, the second can do. */
  lemma Exchange(pat: string, P: nat, str: string, S: nat, p: nat, s: nat, f: Flags)
    requires P <= |pat| && p < |pat| && pat[p] == '*' && S <= s <= |str| && Path(pat, P, str, S, p, s, f)
        && !LeadingDot(str, s, f)
    requires More(pat, P, str, S, f)
    ensures Matches(pat, p, str, s, f)
  {
    var j := MoreWitness(pat, P, str, S, f);
    MatchFollows(pat, P, str, S, j, p, s, f);
    var s' := j + (s - S);
    forall y | S <= y < j ensures !Slash(str, y, f) { assert Swallows(str, y, f); }
    forall x | s <= x < s' ensures Swallows(str, x, f) {
      NoSlash(pat, P, str, S, j, p, s, f, x);
      if x > s { NoSlash(pat, P, str, S, j, p, s, f, x - 1); }
    }
    StarReaches(pat, p, str, s, s', f);
  }

  // ---- the loop ----

  /** The state of the search: where it is, and the last star, if any: the token after it, and how
      far it has swallowed. */
  ghost predicate Searching(pat: string, str: string, f: Flags, p: nat, s: nat, star: bool, P: nat, S: nat) {
    && p <= |pat| && s <= |str|
    && (star ==> P <= |pat| && S <= s && Path(pat, P, str, S, p, s, f))
    && (Matches(pat, 0, str, 0, f) <==> Matches(pat, p, str, s, f) || (star && More(pat, P, str, S, f)))
  }

  /** Matched single tokens move on. */
  lemma Advance(pat: string, str: string, f: Flags, p: nat, s: nat, star: bool, P: nat, S: nat)
    requires Searching(pat, str, f, p, s, star, P, S) && !Blocked(TokenAt(pat, p, f), str, s, f)
    requires IsSingle(TokenAt(pat, p, f)) && Fits(TokenAt(pat, p, f), str, s, f)
    ensures Searching(pat, str, f, TokenAt(pat, p, f).next, s + 1, star, P, S)
  {
    if star { PathSnoc(pat, P, str, S, p, s, f); }
  }

  /** A new star takes over. */
  lemma NewStar(pat: string, str: string, f: Flags, p: nat, s: nat, star: bool, P: nat, S: nat)
    requires Searching(pat, str, f, p, s, star, P, S) && p < |pat| && pat[p] == '*' && !LeadingDot(str, s, f)
    ensures Searching(pat, str, f, p + 1, s, true, p + 1, s)
  {
    StarIs(pat, p, str, s, f);
    if star && More(pat, P, str, S, f) { Exchange(pat, P, str, S, p, s, f); }
  }

  /** A mismatch lets the last star swallow one more character, if it may. */
  lemma Backtrack(pat: string, str: string, f: Flags, p: nat, s: nat, star: bool, P: nat, S: nat)
    requires Searching(pat, str, f, p, s, star, P, S) && !Matches(pat, p, str, s, f)
    ensures !star || !Swallows(str, S, f) ==> !Matches(pat, 0, str, 0, f)
    ensures star && Swallows(str, S, f) ==> Searching(pat, str, f, P, S + 1, true, P, S + 1)
  {
  }

  /** A token that cannot be matched spoils every match that leads through it. */
  lemma NeverPast(pat: string, str: string, f: Flags, p: nat, s: nat, star: bool, P: nat, S: nat)
    requires Searching(pat, str, f, p, s, star, P, S) && TokenAt(pat, p, f).Bad?
    ensures !Matches(pat, 0, str, 0, f)
  {
    if star && More(pat, P, str, S, f) {
      var j := MoreWitness(pat, P, str, S, f);
      MatchFollows(pat, P, str, S, j, p, s, f);
    }
  }

  /** What the token at p makes of a match. */
  lemma TokenMeans(pat: string, p: nat, str: string, s: nat, f: Flags)
    requires p <= |pat| && s <= |str|
    ensures var t := TokenAt(pat, p, f);
            && (Blocked(t, str, s, f) || t.Bad? ==> !Matches(pat, p, str, s, f))
            && (t.End? && !Blocked(t, str, s, f) ==>
                (Matches(pat, p, str, s, f) <==> s == |str| || (f.leadingDir && str[s] == '/')))
            && (IsSingle(t) && !Fits(t, str, s, f) ==> !Matches(pat, p, str, s, f))
  {
  }

  /** One character against one token. */
  method FitsHere(pat: string, p: nat, str: string, s: nat, f: Flags) returns (fits: bool, ghost items: nat)
    requires p <= |pat| && s <= |str| && IsSingle(TokenAt(pat, p, f))
    ensures fits == Fits(TokenAt(pat, p, f), str, s, f) && items <= |pat|
  {
    items := 0;
    var t := TokenAt(pat, p, f);
    if s == |str| { return false, items; }
    if pat[p] == '?' { return !Slash(str, s, f), items; }
    if pat[p] == '[' {
      if Slash(str, s, f) {
        // a slash is matched by a literal only; an unclosed '[' is one, but not a slash
        SlashBracket(t, str, s, f);
        return false, items;
      }
      var r, q;
      r, q, items := MatchBracket(pat, p + 1, str[s], f);
      if r >= 0 { return r == 1, items; }
    }
    fits := Fold(t.c, f) == Fold(str[s], f);
  }

  lemma SlashBracket(t: Token, str: string, s: nat, f: Flags)
    requires Slash(str, s, f) && (t.Set? || (t.Lit? && t.c == '['))
    ensures !Fits(t, str, s, f)
  {
  }

  /** Every step takes the pattern forward or a star's text forward. */
  predicate Spent(steps: nat, tries: nat, p: nat, n: nat) { steps <= tries * (n + 2) + p }

  lemma SpentStart(n: nat)
    ensures Spent(0, 0, 0, n)
  {
  }

  lemma SpendMove(steps: nat, tries: nat, p: nat, p': nat, n: nat)
    requires Spent(steps, tries, p, n) && p < p'
    ensures Spent(steps + 1, tries, p', n)
  {
  }

  lemma SpendBack(steps: nat, tries: nat, p: nat, p': nat, n: nat)
    requires Spent(steps, tries, p, n) && p <= n
    ensures Spent(steps + 1, tries + 1, p', n)
  {
    assert (tries + 1) * (n + 2) == tries * (n + 2) + n + 2;
  }

  lemma SpentAll(steps: nat, tries: nat, p: nat, n: nat, m: nat)
    requires Spent(steps, tries, p, n) && p <= n && tries <= m
    ensures steps + 1 <= (n + 2) * (m + 2)
  {
    assert tries * (n + 2) <= m * (n + 2);
    assert (n + 2) * (m + 2) == m * (n + 2) + 2 * (n + 2);
  }

  lemma MoreItems(items: nat, steps: nat, n: nat)
    requires items <= steps * n
    ensures items + n <= (steps + 1) * n
  {
  }

  /** `fnmatch`: true for a match. The steps are at most (|pat| + 2) * (|str| + 2); a step is a token of the
      pattern tried at a place of the text, or a star passed over. A step that tries a bracket expression looks
      at no more than |pat| items of it. */
  method Run(pat: string, str: string, f: Flags) returns (ok: bool, steps: nat, ghost items: nat)
    ensures ok <==> Matches(pat, 0, str, 0, f)
    ensures steps <= (|pat| + 2) * (|str| + 2) && items <= steps * |pat|
  {
    hide Matches; hide More; hide Path; hide TokenAt; hide Spent;
    SpentStart(|pat|);
    var p: nat, s: nat, star, P: nat, S: nat := 0, 0, false, 0, 0;
    ghost var tries: nat := 0;
    steps, items := 0, 0;
    while true
      invariant Searching(pat, str, f, p, s, star, P, S)
      invariant tries <= S && S <= s && (star ==> P <= p) && Spent(steps, tries, p, |pat|)
      invariant items <= steps * |pat|
      decreases |str| - S, |pat| - p
    {
      SpentAll(steps, tries, p, |pat|, |str|);
      ghost var before, from := steps, p;
      steps := steps + 1;
      ghost var looked: nat := 0;
      MoreItems(items, before, |pat|);
      var t := TokenAt(pat, p, f);
      TokenMeans(pat, p, str, s, f);
      var fits := false;
      if !Blocked(t, str, s, f) {
        if t.End? {
          if s == |str| || (f.leadingDir && str[s] == '/') {
            return true, steps, items;
          }
        } else if t.Star? {
          NewStar(pat, str, f, p, s, star, P, S);
          p := p + 1;
          SpendMove(before, tries, from, p, |pat|);
          while p < |pat| && pat[p] == '*'
            invariant from < p <= |pat| && Searching(pat, str, f, p, s, true, p, s) && Spent(steps, tries, p, |pat|)
            invariant items <= steps * |pat|
          {
            MoreItems(items, steps, |pat|);
            NewStar(pat, str, f, p, s, true, p, s);
            SpendMove(steps, tries, p, p + 1, |pat|);
            steps := steps + 1;
            p := p + 1;
          }
          star, P, S := true, p, s;
          continue;
        } else if t.Bad? {
          // an unclosed class or a lone backslash: reached, it ends the search
          NeverPast(pat, str, f, p, s, star, P, S);
          if pat[p] != '[' || (s < |str| && !Slash(str, s, f)) {
            return false, steps, items;
          }
        } else {
          fits, looked := FitsHere(pat, p, str, s, f);
          items := items + looked;
        }
      }
      if fits {
        Advance(pat, str, f, p, s, star, P, S);
        SpendMove(before, tries, p, t.next, |pat|);
        p, s := t.next, s + 1;
      } else {
        Backtrack(pat, str, f, p, s, star, P, S);
        if !star || !Swallows(str, S, f) {
          return false, steps, items;
        }
        SpendBack(before, tries, p, P, |pat|);
        tries := tries + 1;
        S := S + 1;
        p, s := P, S;
      }
    }
  }
}
