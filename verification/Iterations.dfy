/**
  The iterations of a loop, as dissect takes them: each the longest there is.  The source asserts that they
  use up all of the loop's stretch.  They need not; here is when they do.
 */
module Iterations {
  import opened Strip
  import opened Language
  import opened Dissection

  /** Where iterations begin, the last one being where the next would begin. */
  ghost function Walk(sets: Sets, b: Re, text: Text, ssp: nat, rest: nat): (walk: seq<nat>)
    requires ssp <= rest <= |text|
    ensures walk != [] && forall p :: p in walk ==> ssp <= p <= rest
    decreases rest - ssp
  {
    var sep := Longest(sets, b, text, ssp, rest);
    if sep <= ssp then [ssp] else [ssp] + Walk(sets, b, text, sep, rest)
  }

  /** An iteration that is not empty begins at p. */
  ghost predicate Iterates(sets: Sets, b: Re, text: Text, p: nat, rest: nat)
    requires p <= rest <= |text|
  {
    exists k :: p < k <= rest && Matches(sets, b, text[p..k])
  }

  lemma IteratesIff(sets: Sets, b: Re, text: Text, p: nat, rest: nat)
    requires p <= rest <= |text|
    ensures Iterates(sets, b, text, p, rest) <==> Longest(sets, b, text, p, rest) > p
  {
    hide Matches, Longest;
    LongestHolds(sets, b, text, p, rest);
  }

  /** The walk uses up the stretch just when it is not stuck before its end. */
  lemma {:induction false} ExhaustsIff(sets: Sets, b: Re, text: Text, oldssp: nat, ssp: nat, rest: nat)
    requires oldssp <= ssp <= rest <= |text|
    ensures LastIteration(sets, b, text, oldssp, ssp, rest).1 == rest <==>
      forall p :: p in Walk(sets, b, text, ssp, rest) && p < rest ==> Iterates(sets, b, text, p, rest)
    decreases rest - ssp
  {
    hide Matches, Longest, Iterates;
    var sep := Longest(sets, b, text, ssp, rest);
    IteratesIff(sets, b, text, ssp, rest);
    if sep > ssp { ExhaustsIff(sets, b, text, ssp, sep, rest); }
  }

  // When every stretch is used up

  /** w is some number of texts of b, one after the other. */
  ghost predicate Iterated(sets: Sets, b: Re, w: Text) {
    exists k: nat :: Power(sets, b, k, w)
  }

  /** u is the longest text of b that w begins with. */
  ghost predicate LongestIn(sets: Sets, b: Re, u: Text, w: Text) {
    |u| <= |w| && w[..|u|] == u && Matches(sets, b, u) && forall j :: |u| < j <= |w| ==> !Matches(sets, b, w[..j])
  }

  /** What the longest first iteration leaves over is made of iterations too. */
  ghost predicate Greedy(sets: Sets, b: Re) {
    forall u, w :: u != [] && LongestIn(sets, b, u, w) && Iterated(sets, b, w) ==> Iterated(sets, b, w[|u|..])
  }

  ghost predicate Exhausts(sets: Sets, b: Re, text: Text, a: nat, r: nat)
    requires a <= r <= |text|
  {
    LastIteration(sets, b, text, a, a, r).1 == r
  }

  /** No text of b but the empty one begins a longer text of b. */
  ghost predicate PrefixFree(sets: Sets, b: Re) {
    forall u, v :: u != [] && Matches(sets, b, u) && Matches(sets, b, v) && |u| <= |v| && v[..|u|] == u ==> u == v
  }

  /** A text of iterations begins with one that is not empty. */
  lemma {:induction false} FirstFactor(sets: Sets, b: Re, k: nat, w: Text) returns (i: nat)
    requires Power(sets, b, k, w) && w != []
    ensures 1 <= i <= |w| && Matches(sets, b, w[..i]) && Iterated(sets, b, w[i..])
    decreases k
  {
    hide Matches, Power;
    assert k > 0 by { PowerNone(sets, b, w); }
    i := PowerSplit(sets, b, 1, k - 1, w);
    PowerOne(sets, b, w[..i]);
    if i == 0 {
      assert w[0..] == w;
      i := FirstFactor(sets, b, k - 1, w);
    }
  }

  lemma WholeLongest(sets: Sets, b: Re, text: Text, ssp: nat, rest: nat)
    requires ssp <= rest <= |text|
    ensures var sep := Longest(sets, b, text, ssp, rest);
      sep >= ssp ==> LongestIn(sets, b, text[ssp..sep], text[ssp..rest]) && text[ssp..rest][sep - ssp..] == text[sep..rest]
  {
    hide Matches, Longest;
    LongestHolds(sets, b, text, ssp, rest);
    var sep := Longest(sets, b, text, ssp, rest);
    var w := text[ssp..rest];
    if sep >= ssp {
      assert w[..sep - ssp] == text[ssp..sep];
      forall j | sep - ssp < j <= |w|
        ensures !Matches(sets, b, w[..j])
      {
        assert w[..j] == text[ssp..ssp + j];
      }
    }
  }

  /** One step of the walk, taken in a text of iterations, is of some length. */
  lemma StepsOn(sets: Sets, b: Re, text: Text, ssp: nat, rest: nat)
    requires ssp < rest <= |text| && Iterated(sets, b, text[ssp..rest])
    ensures Longest(sets, b, text, ssp, rest) > ssp
  {
    hide Matches, Longest, Power;
    var w := text[ssp..rest];
    var k: nat :| Power(sets, b, k, w);
    var i := FirstFactor(sets, b, k, w);
    assert w[..i] == text[ssp..ssp + i];
    LongestHolds(sets, b, text, ssp, rest);
  }

  lemma {:induction false} GreedyWalks(sets: Sets, b: Re, text: Text, oldssp: nat, ssp: nat, rest: nat)
    requires Greedy(sets, b) && oldssp <= ssp <= rest <= |text| && Iterated(sets, b, text[ssp..rest])
    ensures LastIteration(sets, b, text, oldssp, ssp, rest).1 == rest
    decreases rest - ssp
  {
    hide Matches, Longest, Power, Iterated, LongestIn;
    if ssp < rest {
      StepsOn(sets, b, text, ssp, rest);
      var sep := Longest(sets, b, text, ssp, rest);
      WholeLongest(sets, b, text, ssp, rest);
      assert text[ssp..sep] != [];
      GreedyWalks(sets, b, text, ssp, sep, rest);
    }
  }

  /** A walk that uses up its stretch has gone over iterations. */
  lemma {:induction false} WalkIsIterated(sets: Sets, b: Re, text: Text, oldssp: nat, ssp: nat, rest: nat)
    requires oldssp <= ssp <= rest <= |text| && LastIteration(sets, b, text, oldssp, ssp, rest).1 == rest
    ensures Iterated(sets, b, text[ssp..rest])
    decreases rest - ssp
  {
    hide Matches, Longest, Power;
    var sep := Longest(sets, b, text, ssp, rest);
    LongestHolds(sets, b, text, ssp, rest);
    if sep <= ssp {
      PowerNone(sets, b, text[ssp..rest]);
    } else {
      WalkIsIterated(sets, b, text, ssp, sep, rest);
      var k: nat :| Power(sets, b, k, text[sep..rest]);
      PowerOne(sets, b, text[ssp..sep]);
      PowerAdd(sets, b, 1, k, text[ssp..sep], text[sep..rest]);
      assert text[ssp..sep] + text[sep..rest] == text[ssp..rest];
    }
  }

  /** Every stretch of iterations is used up just when what the longest first one leaves over can be, too. */
  lemma AlwaysExhaustsIff(sets: Sets, b: Re)
    ensures Greedy(sets, b) <==>
      forall text: Text, a: nat, r: nat :: a <= r <= |text| && Iterated(sets, b, text[a..r]) ==> Exhausts(sets, b, text, a, r)
  {
    hide Matches, Longest, Power, Iterated;
    if Greedy(sets, b) {
      forall text: Text, a: nat, r: nat | a <= r <= |text| && Iterated(sets, b, text[a..r])
        ensures Exhausts(sets, b, text, a, r)
      {
        GreedyWalks(sets, b, text, a, a, r);
      }
    }
    if forall text: Text, a: nat, r: nat :: a <= r <= |text| && Iterated(sets, b, text[a..r]) ==> Exhausts(sets, b, text, a, r) {
      forall u: Text, w: Text | u != [] && LongestIn(sets, b, u, w) && Iterated(sets, b, w)
        ensures Iterated(sets, b, w[|u|..])
      {
        assert w[0..|w|] == w;
        assert Exhausts(sets, b, w, 0, |w|);
        AfterFirst(sets, b, u, w);
      }
    }
  }

  lemma AfterFirst(sets: Sets, b: Re, u: Text, w: Text)
    requires u != [] && LongestIn(sets, b, u, w) && Exhausts(sets, b, w, 0, |w|)
    ensures Iterated(sets, b, w[|u|..])
  {
    hide Matches, Longest, Power, Iterated;
    assert w[0..|u|] == u;
    forall j | |u| < j <= |w|
      ensures !Matches(sets, b, w[0..j])
    {
      assert w[0..j] == w[..j];
    }
    assert Longest(sets, b, w, 0, |w|) == |u| by { LongestIs(sets, b, w, 0, |w|, |u|); }
    WalkIsIterated(sets, b, w, 0, |u|, |w|);
    assert w[|u|..|w|] == w[|u|..];
  }

  /** It is so for an expression of which no text, but for the empty one, begins a longer one. */
  lemma PrefixFreeIsGreedy(sets: Sets, b: Re)
    requires PrefixFree(sets, b)
    ensures Greedy(sets, b)
  {
    hide Matches, Power;
    forall u: Text, w: Text | u != [] && LongestIn(sets, b, u, w) && Iterated(sets, b, w)
      ensures Iterated(sets, b, w[|u|..])
    {
      var k: nat :| Power(sets, b, k, w);
      var i := FirstFactor(sets, b, k, w);
      assert i <= |u|;
      assert u[..i] == w[..i];
      assert w[..i] == u;
    }
  }

  /** So then a loop's last iteration ends where what the loop matched ends. */
  lemma LoopExhausts(sets: Sets, b: Re, text: Text, a: nat, r: nat)
    requires PrefixFree(sets, b) && a <= r <= |text| && MatchesNode(sets, Loop(b), text[a..r])
    ensures LastIteration(sets, b, text, a, a, r).1 == r
  {
    hide Matches, Longest, Power;
    var k := LoopTimes(sets, Loop(b), text[a..r]);
    PrefixFreeIsGreedy(sets, b);
    AlwaysExhaustsIff(sets, b);
    assert Iterated(sets, b, text[a..r]);
  }
}
