/** `regexec` (src/regex.c): choose the matcher and report the captures. */
module RegexExec {
  import opened RegexText
  import opened RegexProgram
  import opened RegexMeaning
  import opened RegexMachine
  import RegexGen
  import Pike = RegexPike
  import Back = RegexBacktrack

  datatype Span = Span(so: int, eo: int)

  /** Group i of some captures; one that was not entered, or not asked for, is -1, -1. */
  function Group(caps: seq<int>, i: nat): Span {
    if 2 * i + 1 < |caps| && caps[2 * i] >= 0 && caps[2 * i + 1] >= 0 then Span(caps[2 * i], caps[2 * i + 1])
    else Span(-1, -1)
  }

  ghost predicate Reported(pm: seq<Span>, caps: seq<int>) {
    forall i: nat | i < |pm| :: pm[i] == Group(caps, i)
  }

  /** Copy captures to the caller's array. */
  method Report(best: seq<int>, nmatch: nat) returns (pm: seq<Span>)
    ensures |pm| == nmatch && Reported(pm, best)
  {
    pm := [];
    var i := 0;
    while i < nmatch
      invariant |pm| == i <= nmatch && Reported(pm, best)
    {
      if 2 * i + 1 < |best| && best[2 * i] >= 0 && best[2 * i + 1] >= 0 {
        pm := pm + [Span(best[2 * i], best[2 * i + 1])];
      } else {
        pm := pm + [Span(-1, -1)];
      }
      i := i + 1;
    }
  }

  /** The captures of one run of the leftmost-longest match. */
  ghost predicate LeftmostLongestWith(v: Subject, t: Node, nsub: nat, caps: seq<int>)
    requires v.Valid()
  {
    && |caps| == 2 * (nsub + 1) && Pike.LeftmostLongest(v, t, caps[0], caps[1])
    && exists b ::
         Rel(v, false, t, Begun(St(caps[0], Pike.Seed(|caps|))), b) && b.pos == caps[1] && caps == Ended(b).caps
  }

  /** Compile a tree and match it. Without back-references the verdict and the span are those of
      the leftmost-longest rule; with them, of the first start and its longest match. All groups
      reported come from one and the same run. */
  method Exec(t: Node, v: Subject, nsub: nat, backrefs: bool, nosub: bool, nmatch0: nat)
    returns (r: Back.Outcome, pm: seq<Span>)
    requires v.Valid() && WellFormed(t) && TreeTame(t, true, nsub) && backrefs == !NoBackRefs(t)
    requires Size(t) + 3 <= MAX_INST
    ensures !backrefs ==> r != Back.Exhausted && (r == Back.Match <==> Pike.MatchesSomewhere(v, t))
    ensures r == Back.Match ==> |pm| == if nosub then 0 else nmatch0
    ensures r == Back.Match && |pm| > 0 && !backrefs ==>
              exists best :: LeftmostLongestWith(v, t, nsub, best) && Reported(pm, best)
    ensures r == Back.Match && backrefs ==> exists best :: Back.FirstLongest(v, t, nsub, best) && Reported(pm, best)
    ensures r == Back.NoMatch && backrefs ==>
              forall s: nat, e: nat, caps | Boundary(v, s) :: !Back.MatchesWith(v, t, nsub, s, e, caps)
  {
    hide Boundary; hide Size; hide Loops; hide Matches; hide Rel; hide IsProgram; hide Back.MatchesWith;
    hide Pike.MatchesSomewhere;
    var nmatch := if nosub then 0 else nmatch0;
    var ok, p, nloops := RegexGen.Compile(t);
    var ncap := 2 * (nsub + 1);
    pm := [];
    if backrefs {
      var best, steps, frames;
      r, best, steps, frames := Back.BtRun(Machine(p, v, true), nsub, nloops, t);
      if r == Back.Match { pm := Report(best, nmatch); }
    } else {
      var matched, best := Pike.PikeRun(Machine(p, v, false), if nmatch > 0 then ncap else 2, t);
      r := if matched then Back.Match else Back.NoMatch;
      if matched { pm := Report(best, nmatch); }
    }
  }

  /** On a tree without back-references the two matchers have the same specification: what the
      backtracker would report is the leftmost-longest match. */
  lemma MatchersAgree(v: Subject, t: Node, nsub: nat, best: seq<int>)
    requires v.Valid() && NoBackRefs(t) && Back.FirstLongest(v, t, nsub, best)
    ensures Pike.LeftmostLongest(v, t, best[0], best[1])
  {
    hide Boundary; hide Matches; hide Rel;
    var a := Begun(St(best[0], seq(2 * (nsub + 1), _ => -1)));
    var b :| Rel(v, true, t, a, b) && b.pos == best[1] && best == Ended(b).caps;
    RelMatches(v, true, t, a, b);
    forall s: nat, e: nat | Pike.MatchesAt(v, t, s, e) ensures best[0] < s || (best[0] == s && e <= best[1]) {
      var c := MatchesRel(v, true, t, Begun(St(s, seq(2 * (nsub + 1), _ => -1))), e);
      assert Back.MatchesWith(v, t, nsub, s, e, Ended(c).caps);
    }
  }
}
