/**
  Runs over stretches of a text: what reading one more character does, and what a search that starts
  afresh at every position has reached.
 */
module Runs {
  import opened Strip
  import opened Automaton

  lemma RunSnoc(strip: seq<Sop>, sets: Sets, lo: nat, hi: nat, w: Text, c: Ch)
    requires lo <= hi <= |strip|
    ensures Run(strip, sets, lo, hi, w + [c]) ==
            Closure(strip, lo, hi, After(strip, sets, lo, hi, Run(strip, sets, lo, hi, w), c))
  {
    assert (w + [c])[..|w|] == w && (w + [c])[|w|] == c;
  }

  lemma RunClosed(strip: seq<Sop>, sets: Sets, lo: nat, hi: nat, w: Text)
    requires WellFormed(strip, lo, hi)
    ensures Closure(strip, lo, hi, Run(strip, sets, lo, hi, w)) == Run(strip, sets, lo, hi, w)
  {
    if w == [] {
      ClosureIdempotent(strip, lo, hi, {lo});
    } else {
      var n := |w| - 1;
      ClosureIdempotent(strip, lo, hi, After(strip, sets, lo, hi, Run(strip, sets, lo, hi, w[..n]), w[n]));
    }
  }

  /** A run that has died stays dead. */
  lemma {:induction false} RunDead(strip: seq<Sop>, sets: Sets, lo: nat, hi: nat, u: Text, v: Text)
    requires lo <= hi <= |strip| && Run(strip, sets, lo, hi, u) == {}
    ensures Run(strip, sets, lo, hi, u + v) == {}
    decreases |v|
  {
    hide Closure;
    if v == [] {
      assert u + v == u;
    } else {
      var n := |v| - 1;
      RunDead(strip, sets, lo, hi, u, v[..n]);
      assert u + v == (u + v[..n]) + [v[n]];
      RunSnoc(strip, sets, lo, hi, u + v[..n], v[n]);
      assert After(strip, sets, lo, hi, {}, v[n]) == {};
      ClosureOfNothing(strip, lo, hi);
    }
  }

  /** The states of a search over text[a..p] that also starts afresh at every position. */
  ghost function Search(strip: seq<Sop>, sets: Sets, lo: nat, hi: nat, text: Text, a: nat, p: nat): set<int>
    requires lo <= hi <= |strip| && a <= p <= |text|
    decreases p
  {
    var anew := Run(strip, sets, lo, hi, []);
    if a == p then anew
    else Closure(strip, lo, hi, anew + After(strip, sets, lo, hi, Search(strip, sets, lo, hi, text, a, p - 1), text[p - 1]))
  }

  lemma AfterUnion(strip: seq<Sop>, sets: Sets, lo: nat, hi: nat, a: set<int>, b: set<int>, c: Ch)
    requires lo <= hi <= |strip|
    ensures After(strip, sets, lo, hi, a + b, c) == After(strip, sets, lo, hi, a, c) + After(strip, sets, lo, hi, b, c)
  {
  }

  /** A search is the run from its first position, together with the search from the next. */
  lemma {:induction false} SearchSplit(strip: seq<Sop>, sets: Sets, lo: nat, hi: nat, text: Text, a: nat, p: nat)
    requires lo <= hi <= |strip| && WellFormed(strip, lo, hi) && a < p <= |text|
    ensures Search(strip, sets, lo, hi, text, a, p) ==
            Run(strip, sets, lo, hi, text[a..p]) + Search(strip, sets, lo, hi, text, a + 1, p)
    decreases p
  {
    hide WellFormed, Closure, After;
    var c := text[p - 1];
    var anew := Run(strip, sets, lo, hi, []);
    var head := Run(strip, sets, lo, hi, text[a..p - 1]);
    var all := Search(strip, sets, lo, hi, text, a, p - 1);
    assert text[a..p] == text[a..p - 1] + [c];
    RunSnoc(strip, sets, lo, hi, text[a..p - 1], c);
    RunClosed(strip, sets, lo, hi, []);
    ClosureOfUnion(strip, lo, hi, anew, After(strip, sets, lo, hi, all, c));
    if a == p - 1 {
      assert text[a..p - 1] == [];
    } else {
      var rest := Search(strip, sets, lo, hi, text, a + 1, p - 1);
      SearchSplit(strip, sets, lo, hi, text, a, p - 1);
      AfterUnion(strip, sets, lo, hi, head, rest, c);
      ClosureOfUnion(strip, lo, hi, After(strip, sets, lo, hi, head, c), After(strip, sets, lo, hi, rest, c));
      ClosureOfUnion(strip, lo, hi, anew, After(strip, sets, lo, hi, rest, c));
    }
  }

  /** A search has reached exactly the states some run inside its stretch has. */
  lemma {:induction false} SearchIsRuns(strip: seq<Sop>, sets: Sets, lo: nat, hi: nat, text: Text, a: nat, p: nat, q: int)
    requires lo <= hi <= |strip| && WellFormed(strip, lo, hi) && a <= p <= |text|
    ensures q in Search(strip, sets, lo, hi, text, a, p) <==>
            exists j :: a <= j <= p && q in Run(strip, sets, lo, hi, text[j..p])
    decreases p - a
  {
    hide WellFormed, Closure, Run;
    if a == p {
      assert text[p..p] == [];
    } else {
      SearchSplit(strip, sets, lo, hi, text, a, p);
      SearchIsRuns(strip, sets, lo, hi, text, a + 1, p, q);
    }
  }

  lemma RunInSearch(strip: seq<Sop>, sets: Sets, lo: nat, hi: nat, text: Text, a: nat, j: nat, p: nat)
    requires lo <= hi <= |strip| && WellFormed(strip, lo, hi) && a <= j <= p <= |text|
    ensures Run(strip, sets, lo, hi, text[j..p]) <= Search(strip, sets, lo, hi, text, a, p)
  {
    forall q | q in Run(strip, sets, lo, hi, text[j..p])
      ensures q in Search(strip, sets, lo, hi, text, a, p)
    {
      SearchIsRuns(strip, sets, lo, hi, text, a, p, q);
    }
  }
}
