/**
  What the dissection rule says of one group, where nothing else in the expression bears its number.
 */
module GroupSpans {
  import opened Strip
  import opened Language
  import opened Dissection
  import P = Pattern
  import U = Unambiguous
  import N = GroupNumbers

  function Parens(i: nat, x: Re): Re {
    Cons(Open(i), Append(x, Cons(Shut(i), Nil)))
  }

  lemma FitsNode(sets: Sets, h: Node, t: Re, text: Text, a: nat, stop: nat) returns (r: nat)
    requires a <= stop <= |text| && Matches(sets, Cons(h, t), text[a..stop])
    ensures r == Split(sets, h, t, text, a, stop, stop) && a <= r <= stop
    ensures MatchesNode(sets, h, text[a..r]) && Matches(sets, t, text[r..stop])
  {
    hide Matches, MatchesNode, Split;
    SplitExists(sets, h, t, text, a, stop);
    SplitHolds(sets, h, t, text, a, stop, stop);
    r := Split(sets, h, t, text, a, stop, stop);
  }

  /** One node after the other. */
  lemma OneNodeOn(sets: Sets, h: Node, t: Re, text: Text, a: nat, stop: nat, pm: seq<Span>) returns (r: nat)
    requires a <= stop <= |text| && Matches(sets, Cons(h, t), text[a..stop])
    ensures r == Split(sets, h, t, text, a, stop, stop)
    ensures a <= r <= stop && MatchesNode(sets, h, text[a..r]) && Matches(sets, t, text[r..stop])
    ensures Dissected(sets, Cons(h, t), text, a, stop, pm) == Dissected(sets, t, text, r, stop, NodeDissected(sets, h, text, a, r, pm))
  {
    hide Matches, MatchesNode, Split, Dissected, NodeDissected;
    r := FitsNode(sets, h, t, text, a, stop);
    DissectedCons(sets, h, t, text, a, stop, pm);
  }

  /** A single node. */
  lemma NodeAlone(sets: Sets, h: Node, text: Text, a: nat, stop: nat, pm: seq<Span>)
    requires a <= stop <= |text| && MatchesNode(sets, h, text[a..stop])
    ensures Dissected(sets, Cons(h, Nil), text, a, stop, pm) == NodeDissected(sets, h, text, a, stop, pm)
  {
    hide Matches, MatchesNode, Dissected, NodeDissected;
    MatchesOne(sets, h, text[a..stop]);
    var r := OneNodeOn(sets, h, Nil, text, a, stop, pm);
    MatchesNil(sets, text[r..stop]);
    assert |text[r..stop]| == stop - r;
    DissectedNil(sets, text, r, stop, NodeDissected(sets, h, text, a, r, pm));
  }

  lemma Marks(sets: Sets, i: nat, text: Text, a: nat, r: nat, pm: seq<Span>)
    requires a <= r <= |text|
    ensures NodeDissected(sets, Open(i), text, a, r, pm) == SetSo(pm, i, a)
    ensures NodeDissected(sets, Shut(i), text, a, r, pm) == SetEo(pm, i, a)
    ensures MatchesNode(sets, Open(i), text[a..r]) || MatchesNode(sets, Shut(i), text[a..r]) ==> a == r
  {
    assert |text[a..r]| == r - a;
  }

  /** Where x ends when each of its nodes takes the longest stretch after which the others, and then q, still match. */
  ghost function NodesEnd(sets: Sets, x: Re, q: Re, text: Text, a: nat, stop: nat): (k: nat)
    requires a <= stop <= |text|
    ensures a <= k <= stop
    decreases x
  {
    match x
    case Nil => a
    case Cons(h, t) =>
      var r := Split(sets, h, Append(t, q), text, a, stop, stop);
      if r == -1 then a else NodesEnd(sets, t, q, text, r, stop)
  }

  lemma NodesEndCons(sets: Sets, h: Node, t: Re, q: Re, text: Text, a: nat, stop: nat)
    requires a <= stop <= |text| && Split(sets, h, Append(t, q), text, a, stop, stop) != -1
    ensures NodesEnd(sets, Cons(h, t), q, text, a, stop) ==
      NodesEnd(sets, t, q, text, Split(sets, h, Append(t, q), text, a, stop, stop), stop)
  {
    hide Split, Append;
  }

  lemma {:induction false} NodesEndHolds(sets: Sets, x: Re, q: Re, text: Text, a: nat, stop: nat)
    requires a <= stop <= |text| && Matches(sets, Append(x, q), text[a..stop])
    ensures var k := NodesEnd(sets, x, q, text, a, stop); Matches(sets, x, text[a..k]) && Matches(sets, q, text[k..stop])
    decreases x
  {
    hide Matches, MatchesNode, Split, NodesEnd;
    match x
    case Nil =>
      EndsAtOnce(sets, q, text, a, stop);
      MatchesNil(sets, text[a..a]);
    case Cons(h, t) =>
      var r := FitsNode(sets, h, Append(t, q), text, a, stop);
      NodesEndCons(sets, h, t, q, text, a, stop);
      NodesEndHolds(sets, t, q, text, r, stop);
      var k := NodesEnd(sets, t, q, text, r, stop);
      MatchesCons(sets, h, t, text[a..r], text[r..k]);
      assert text[a..r] + text[r..k] == text[a..k];
  }

  lemma EndsAtOnce(sets: Sets, q: Re, text: Text, a: nat, stop: nat)
    requires a <= stop <= |text|
    ensures NodesEnd(sets, Nil, q, text, a, stop) == a
  {
  }

  /** Up to the parenthesis that closes group i, only its end changes. */
  lemma {:induction false} UpToShut(sets: Sets, i: nat, x: Re, q: Re, text: Text, a: nat, stop: nat, pm: seq<Span>) returns (k: nat, pm': seq<Span>)
    requires a <= stop <= |text| && i < |pm| && !Occurs(i, x)
    requires Matches(sets, Append(x, Cons(Shut(i), q)), text[a..stop])
    ensures a <= k <= stop && Matches(sets, x, text[a..k]) && Matches(sets, q, text[k..stop])
    ensures k == NodesEnd(sets, x, Cons(Shut(i), q), text, a, stop)
    ensures |pm'| == |pm| && pm'[i] == pm[i].(eo := k)
    ensures Dissected(sets, Append(x, Cons(Shut(i), q)), text, a, stop, pm) == Dissected(sets, q, text, k, stop, pm')
    decreases x
  {
    hide Matches, MatchesNode, Dissected, NodeDissected, Split, NodesEnd;
    match x
    case Nil =>
      k := OneNodeOn(sets, Shut(i), q, text, a, stop, pm);
      Marks(sets, i, text, a, k, pm);
      MatchesNil(sets, text[a..k]);
      EndsAtOnce(sets, Cons(Shut(i), q), text, a, stop);
      pm' := SetEo(pm, i, a);
    case Cons(h, t) =>
      var r := OneNodeOn(sets, h, Append(t, Cons(Shut(i), q)), text, a, stop, pm);
      UntouchedNode(sets, i, h, text, a, r, pm);
      NodesEndCons(sets, h, t, Cons(Shut(i), q), text, a, stop);
      k, pm' := UpToShut(sets, i, t, q, text, r, stop, NodeDissected(sets, h, text, a, r, pm));
      MatchesCons(sets, h, t, text[a..r], text[r..k]);
      assert text[a..r] + text[r..k] == text[a..k];
  }

  /** A group and what follows it: it has the stretch before that. */
  lemma GroupThen(sets: Sets, i: nat, x: Re, q: Re, text: Text, a: nat, stop: nat, pm: seq<Span>) returns (k: nat, pm': seq<Span>)
    requires a <= stop <= |text| && i < |pm| && !Occurs(i, x)
    requires Matches(sets, Append(Parens(i, x), q), text[a..stop])
    ensures a <= k <= stop && Matches(sets, x, text[a..k]) && Matches(sets, q, text[k..stop])
    ensures k == NodesEnd(sets, x, Cons(Shut(i), q), text, a, stop)
    ensures |pm'| == |pm| && pm'[i] == Span(a, k)
    ensures Dissected(sets, Append(Parens(i, x), q), text, a, stop, pm) == Dissected(sets, q, text, k, stop, pm')
  {
    hide Matches, MatchesNode, Dissected, NodeDissected, Occurs, NodesEnd, Split;
    AppendAssoc(x, Cons(Shut(i), Nil), q);
    assert Append(Cons(Shut(i), Nil), q) == Cons(Shut(i), q);
    var rest := Append(x, Cons(Shut(i), q));
    assert Append(Parens(i, x), q) == Cons(Open(i), rest);
    var r := OneNodeOn(sets, Open(i), rest, text, a, stop, pm);
    Marks(sets, i, text, a, r, pm);
    k, pm' := UpToShut(sets, i, x, q, text, a, stop, SetSo(pm, i, a));
  }

  /** A group alone has all of the stretch. */
  lemma GroupAlone(sets: Sets, i: nat, x: Re, text: Text, a: nat, stop: nat, pm: seq<Span>)
    requires a <= stop <= |text| && i < |pm| && !Occurs(i, x) && Matches(sets, x, text[a..stop])
    ensures Dissected(sets, Parens(i, x), text, a, stop, pm)[i] == Span(a, stop)
  {
    hide Matches, Dissected, Occurs;
    P.GroupMatches(sets, i, x, text[a..stop]);
    AppendNil(Parens(i, x));
    var k, pm' := GroupThen(sets, i, x, Nil, text, a, stop, pm);
    MatchesNil(sets, text[k..stop]);
    assert |text[k..stop]| == stop - k;
    DissectedNil(sets, text, k, stop, pm');
  }

  // Is it the longest the group could have?

  /** The group could end at k as well: x matches up to there, and q the rest. */
  ghost predicate CouldEnd(sets: Sets, x: Re, q: Re, text: Text, a: int, k: int, stop: nat)
    requires stop <= |text|
  {
    0 <= a <= k <= stop && Matches(sets, x, text[a..k]) && Matches(sets, q, text[k..stop])
  }

  /** It could with the stretch up to i for its first node. */
  ghost predicate CouldBy(sets: Sets, h: Node, t: Re, q: Re, text: Text, a: nat, i: int, k: int, stop: nat)
    requires stop <= |text|
  {
    a <= i && CouldEnd(sets, t, q, text, i, k, stop) && MatchesNode(sets, h, text[a..i])
  }

  /** Nowhere would a shorter stretch for a node let the nodes behind it get farther. */
  ghost predicate NoneFarther(sets: Sets, x: Re, q: Re, text: Text, a: nat, stop: nat)
    requires a <= stop <= |text|
    decreases x
  {
    match x
    case Nil => true
    case Cons(h, t) =>
      var r := Split(sets, h, Append(t, q), text, a, stop, stop);
      r == -1 || (ShorterIsNoBetter(sets, h, t, q, text, a, r, stop) && NoneFarther(sets, t, q, text, r, stop))
  }

  ghost predicate ShorterIsNoBetter(sets: Sets, h: Node, t: Re, q: Re, text: Text, a: nat, r: nat, stop: nat)
    requires a <= r <= stop <= |text|
  {
    forall i, k :: i < r && NodesEnd(sets, t, q, text, r, stop) < k ==> !CouldBy(sets, h, t, q, text, a, i, k, stop)
  }

  ghost predicate IsFarthest(sets: Sets, x: Re, q: Re, text: Text, a: nat, e: nat, stop: nat)
    requires stop <= |text|
  {
    forall k :: e < k ==> !CouldEnd(sets, x, q, text, a, k, stop)
  }

  lemma NoneFartherCons(sets: Sets, h: Node, t: Re, q: Re, text: Text, a: nat, r: nat, stop: nat)
    requires a <= r <= stop <= |text| && r == Split(sets, h, Append(t, q), text, a, stop, stop)
    ensures NoneFarther(sets, Cons(h, t), q, text, a, stop) <==>
      ShorterIsNoBetter(sets, h, t, q, text, a, r, stop) && NoneFarther(sets, t, q, text, r, stop)
  {
    hide Split, Append, ShorterIsNoBetter;
  }

  lemma NothingToChoose(sets: Sets, q: Re, text: Text, a: nat, stop: nat)
    requires a <= stop <= |text|
    ensures NoneFarther(sets, Nil, q, text, a, stop)
  {
  }

  /** The group ends as far on as it could just when that is so. */
  lemma {:induction false} FarthestIff(sets: Sets, x: Re, q: Re, text: Text, a: nat, stop: nat)
    requires a <= stop <= |text| && Matches(sets, Append(x, q), text[a..stop])
    ensures IsFarthest(sets, x, q, text, a, NodesEnd(sets, x, q, text, a, stop), stop) <==> NoneFarther(sets, x, q, text, a, stop)
    decreases x
  {
    hide Matches, MatchesNode, NodesEnd, Split, CouldEnd, CouldBy, NoneFarther;
    match x
    case Nil =>
      NothingToChoose(sets, q, text, a, stop);
      EndsAtOnce(sets, q, text, a, stop);
      forall k | a < k
        ensures !CouldEnd(sets, Nil, q, text, a, k, stop)
      {
        NothingFarther(sets, q, text, a, k, stop);
      }
    case Cons(h, t) =>
      var r := FitsNode(sets, h, Append(t, q), text, a, stop);
      NodesEndCons(sets, h, t, q, text, a, stop);
      NoneFartherCons(sets, h, t, q, text, a, r, stop);
      FarthestIff(sets, t, q, text, r, stop);
      forall k
        ensures CouldEnd(sets, x, q, text, a, k, stop) <==> exists i :: CouldBy(sets, h, t, q, text, a, i, k, stop)
      {
        FirstStretch(sets, h, t, q, text, a, k, stop);
      }
      assert forall i, k :: CouldBy(sets, h, t, q, text, a, i, k, stop) ==> CouldEnd(sets, x, q, text, a, k, stop);
      forall i, k | CouldBy(sets, h, t, q, text, a, i, k, stop)
        ensures i <= r && (i == r ==> CouldEnd(sets, t, q, text, r, k, stop))
      {
        AtMostSplit(sets, h, t, q, text, a, i, k, stop);
      }
      forall k | CouldEnd(sets, t, q, text, r, k, stop)
        ensures CouldBy(sets, h, t, q, text, a, r, k, stop)
      {
        ByIts(sets, h, t, q, text, a, r, k, stop);
      }
      var e := NodesEnd(sets, t, q, text, r, stop);
      assert IsFarthest(sets, x, q, text, a, e, stop) ==> IsFarthest(sets, t, q, text, r, e, stop);
      assert IsFarthest(sets, x, q, text, a, e, stop) ==> ShorterIsNoBetter(sets, h, t, q, text, a, r, stop);
      if ShorterIsNoBetter(sets, h, t, q, text, a, r, stop) && IsFarthest(sets, t, q, text, r, e, stop) {
        forall k | CouldEnd(sets, x, q, text, a, k, stop)
          ensures k <= e
        {
          var i :| CouldBy(sets, h, t, q, text, a, i, k, stop);
        }
      }
  }

  lemma NothingFarther(sets: Sets, q: Re, text: Text, a: nat, k: int, stop: nat)
    requires a < k && stop <= |text|
    ensures !CouldEnd(sets, Nil, q, text, a, k, stop)
  {
    hide Matches;
    if a < k <= stop {
      MatchesNil(sets, text[a..k]);
      assert |text[a..k]| == k - a;
    }
  }

  lemma ByIts(sets: Sets, h: Node, t: Re, q: Re, text: Text, a: nat, r: nat, k: int, stop: nat)
    requires a <= r <= stop <= |text| && MatchesNode(sets, h, text[a..r]) && CouldEnd(sets, t, q, text, r, k, stop)
    ensures CouldBy(sets, h, t, q, text, a, r, k, stop)
  {
    hide Matches, MatchesNode;
  }

  lemma Within(text: Text, a: nat, k: nat, i: nat)
    requires a + i <= k <= |text|
    ensures text[a..k][..i] == text[a..a + i] && text[a..k][i..] == text[a + i..k]
  {
  }

  lemma FirstStretch(sets: Sets, h: Node, t: Re, q: Re, text: Text, a: nat, k: int, stop: nat)
    requires a <= stop <= |text|
    ensures CouldEnd(sets, Cons(h, t), q, text, a, k, stop) <==> exists i :: CouldBy(sets, h, t, q, text, a, i, k, stop)
  {
    hide Matches, MatchesNode;
    if CouldEnd(sets, Cons(h, t), q, text, a, k, stop) {
      var w := text[a..k];
      var i := MatchesUncons(sets, h, t, w);
      Within(text, a, k, i);
      assert CouldBy(sets, h, t, q, text, a, a + i, k, stop);
    }
    if i :| CouldBy(sets, h, t, q, text, a, i, k, stop) {
      MatchesCons(sets, h, t, text[a..i], text[i..k]);
      assert text[a..i] + text[i..k] == text[a..k];
    }
  }

  lemma AtMostSplit(sets: Sets, h: Node, t: Re, q: Re, text: Text, a: nat, i: int, k: int, stop: nat)
    requires a <= stop <= |text| && CouldBy(sets, h, t, q, text, a, i, k, stop)
    ensures i <= Split(sets, h, Append(t, q), text, a, stop, stop) && CouldEnd(sets, t, q, text, i, k, stop)
  {
    hide Matches, MatchesNode, Split;
    MatchesAppend(sets, t, q, text[i..k], text[k..stop]);
    assert text[i..k] + text[k..stop] == text[i..stop];
    SplitHolds(sets, h, Append(t, q), text, a, stop, stop);
  }

  /** A group of one node always does. */
  lemma OneNodeFarthest(sets: Sets, h: Node, q: Re, text: Text, a: nat, stop: nat)
    requires a <= stop <= |text|
    ensures NoneFarther(sets, Cons(h, Nil), q, text, a, stop)
  {
    hide Matches, MatchesNode, Split, CouldEnd;
    forall r: nat, i, k | a <= r <= stop && i < r && NodesEnd(sets, Nil, q, text, r, stop) < k
      ensures !CouldBy(sets, h, Nil, q, text, a, i, k, stop)
    {
      if 0 <= i { NothingFarther(sets, q, text, i, k, stop); }
    }
  }

  // Repetition, in terms of a pattern

  /** The expression x is for the texts that pattern p means. */
  ghost predicate StandsFor(sets: Sets, x: Re, newline: bool, p: Text) {
    forall w :: Matches(sets, x, w) <==> U.Means(newline, p, w)
  }

  /** Of the stretches that begin at a, and end by stop, the longest that p means ends at k. */
  ghost predicate LongestAt(newline: bool, p: Text, text: Text, a: nat, k: nat, stop: nat)
    requires stop <= |text|
  {
    a <= k <= stop && U.Means(newline, p, text[a..k]) && forall j :: k < j <= stop ==> !U.Means(newline, p, text[a..j])
  }

  /** From a, taking the longest stretch that p means again and again leads to k. */
  ghost predicate LeadsTo(newline: bool, p: Text, text: Text, a: nat, k: nat, stop: nat)
    requires stop <= |text|
    decreases k - a
  {
    a == k || exists i :: a < i <= k && LongestAt(newline, p, text, a, i, stop) && LeadsTo(newline, p, text, i, k, stop)
  }

  /** The iteration that leaves the walk by longest iterations stuck, or is empty itself, is text[so..eo]. */
  ghost predicate LastTaken(newline: bool, p: Text, text: Text, a: nat, stop: nat, s: Span)
    requires stop <= |text|
  {
    && a <= s.so <= s.eo <= stop
    && LeadsTo(newline, p, text, a, s.so, stop)
    && LongestAt(newline, p, text, s.so, s.eo, stop)
    && (s.so < s.eo ==> forall k :: s.eo <= k <= stop ==> !U.Means(newline, p, text[s.eo..k]))
  }

  lemma LongestIsAt(sets: Sets, x: Re, newline: bool, p: Text, text: Text, a: nat, stop: nat)
    requires a <= stop <= |text| && StandsFor(sets, x, newline, p)
    ensures var k := Longest(sets, x, text, a, stop);
      if k == -1 then forall j :: a <= j <= stop ==> !U.Means(newline, p, text[a..j]) else LongestAt(newline, p, text, a, k, stop)
  {
    hide Matches, Longest, U.Means;
    LongestHolds(sets, x, text, a, stop);
  }

  lemma {:induction false} LastIs(sets: Sets, x: Re, newline: bool, p: Text, text: Text, was: nat, ssp: nat, stop: nat)
    requires was <= ssp <= stop <= |text| && StandsFor(sets, x, newline, p)
    requires if was < ssp then LongestAt(newline, p, text, was, ssp, stop) else Longest(sets, x, text, ssp, stop) != -1
    ensures var r := LastIteration(sets, x, text, was, ssp, stop); LastTaken(newline, p, text, was, stop, Span(r.0, r.1))
    decreases stop - ssp
  {
    hide Matches, Longest, U.Means, LongestAt;
    LongestIsAt(sets, x, newline, p, text, ssp, stop);
    var sep := Longest(sets, x, text, ssp, stop);
    if sep == ssp {
      assert LeadsTo(newline, p, text, ssp, ssp, stop);
    } else if sep == -1 {
      assert LeadsTo(newline, p, text, was, was, stop);
    } else {
      LastIs(sets, x, newline, p, text, ssp, sep, stop);
      var r := LastIteration(sets, x, text, ssp, sep, stop);
      assert LeadsTo(newline, p, text, ssp, r.0, stop);
    }
  }

  /** The body of a loop has the last iteration. */
  lemma LoopTakes(sets: Sets, i: nat, x: Re, newline: bool, p: Text, text: Text, a: nat, stop: nat, pm: seq<Span>)
    requires a <= stop <= |text| && i < |pm| && !Occurs(i, x) && StandsFor(sets, x, newline, p)
    requires MatchesNode(sets, Loop(Parens(i, x)), text[a..stop])
    ensures LastTaken(newline, p, text, a, stop, Dissected(sets, Cons(Loop(Parens(i, x)), Nil), text, a, stop, pm)[i])
  {
    hide Matches, U.Means, Dissected, Occurs, LastTaken, Longest, LastIteration, Power, Parens;
    var y := Parens(i, x);
    ParensStand(sets, i, x, newline, p);
    NodeAlone(sets, Loop(y), text, a, stop, pm);
    FirstIteration(sets, y, text, a, stop);
    LastIs(sets, y, newline, p, text, a, a, stop);
    LastIterationMatches(sets, y, text, a, a, stop);
    var last := LastIteration(sets, y, text, a, a, stop);
    P.GroupMatches(sets, i, x, text[last.0..last.1]) by { ParensAre(i, x); }
    GroupAlone(sets, i, x, text, last.0, last.1, pm);
  }

  lemma ParensAre(i: nat, x: Re)
    ensures Parens(i, x) == Cons(Open(i), Append(x, Cons(Shut(i), Nil)))
  {
  }

  lemma ParensStand(sets: Sets, i: nat, x: Re, newline: bool, p: Text)
    requires StandsFor(sets, x, newline, p)
    ensures StandsFor(sets, Parens(i, x), newline, p)
  {
    hide Matches, U.Means;
    forall w
      ensures Matches(sets, Parens(i, x), w) <==> U.Means(newline, p, w)
    {
      P.GroupMatches(sets, i, x, w);
    }
  }

  /** So has that of a loop that may be bypassed, unless it is. */
  lemma StarTakes(sets: Sets, i: nat, x: Re, newline: bool, p: Text, text: Text, a: nat, stop: nat, pm: seq<Span>)
    requires a <= stop <= |text| && i < |pm| && !Occurs(i, x) && StandsFor(sets, x, newline, p)
    requires MatchesNode(sets, Maybe(Cons(Loop(Parens(i, x)), Nil)), text[a..stop])
    ensures var s := Dissected(sets, Cons(Maybe(Cons(Loop(Parens(i, x)), Nil)), Nil), text, a, stop, pm)[i];
      if a < stop || U.Means(newline, p, []) then LastTaken(newline, p, text, a, stop, s) else s == pm[i]
  {
    hide Matches, U.Means, Dissected, Occurs, LastTaken, Longest, Power, Parens;
    var y := Parens(i, x);
    var l := Cons(Loop(y), Nil);
    ParensStand(sets, i, x, newline, p);
    NodeAlone(sets, Maybe(l), text, a, stop, pm);
    MatchesOne(sets, Loop(y), text[a..stop]);
    LongestHolds(sets, l, text, a, stop);
    LoopsEmpty(sets, y, newline, p);
    assert text[a..stop] == [] <==> a == stop by { assert |text[a..stop]| == stop - a; }
    if a < stop || U.Means(newline, p, []) {
      LoopTakes(sets, i, x, newline, p, text, a, stop, pm);
    } else {
      assert Longest(sets, l, text, a, stop) == -1;
    }
  }

  /** A repetition is for the empty text just when what is repeated is. */
  lemma LoopsEmpty(sets: Sets, y: Re, newline: bool, p: Text)
    requires StandsFor(sets, y, newline, p)
    ensures MatchesNode(sets, Loop(y), []) <==> U.Means(newline, p, [])
  {
    hide Matches, U.Means, Power;
    PowerOne(sets, y, []);
    if MatchesNode(sets, Loop(y), []) {
      var k := LoopTimes(sets, Loop(y), []);
      var i := PowerSplit(sets, y, 1, k - 1, []);
      PowerOne(sets, y, [][..i]);
    }
  }

  // Choice

  /** The first of two branches that fits has the stretch, the other's groups stay as they were. */
  lemma ChoiceTakes(sets: Sets, f: Re, o: Re, text: Text, a: nat, stop: nat, pm: seq<Span>)
    requires a <= stop <= |text| && MatchesNode(sets, Choice(f, Last(o)), text[a..stop])
    ensures Dissected(sets, Cons(Choice(f, Last(o)), Nil), text, a, stop, pm) ==
      Dissected(sets, if Matches(sets, f, text[a..stop]) then f else o, text, a, stop, pm)
    ensures !Matches(sets, f, text[a..stop]) ==> Matches(sets, o, text[a..stop])
  {
    hide Matches, Dissected, Longest;
    var c := Choice(f, Last(o));
    NodeAlone(sets, c, text, a, stop, pm);
    LongestHolds(sets, f, text, a, stop);
  }

  // Two groups

  lemma OccursInParens(i: nat, j: nat, x: Re)
    ensures Occurs(i, Parens(j, x)) <==> i == j || Occurs(i, x)
  {
    N.OccursAppend(i, x, Cons(Shut(j), Nil));
    assert Occurs(i, Cons(Shut(j), Nil)) <==> i == j;
  }

  /** No group of x or y has the number of another. */
  predicate Apart(x: Re, n: nat, y: Re) {
    n != 1 && !Occurs(1, x) && !Occurs(n, x) && !Occurs(1, y) && !Occurs(n, y)
  }

  lemma EitherTakes(sets: Sets, x: Re, n: nat, y: Re, text: Text, a: nat, b: nat, pm: seq<Span>)
    requires Apart(x, n, y) && a <= b <= |text| && 1 < |pm| && n < |pm|
    requires Matches(sets, Cons(Choice(Parens(1, x), Last(Parens(n, y))), Nil), text[a..b])
    ensures var pm' := Dissected(sets, Cons(Choice(Parens(1, x), Last(Parens(n, y))), Nil), text, a, b, pm);
      if Matches(sets, x, text[a..b]) then pm'[1] == Span(a, b) && pm'[n] == pm[n]
      else Matches(sets, y, text[a..b]) && pm'[n] == Span(a, b) && pm'[1] == pm[1]
  {
    hide Matches, Dissected, Occurs, Parens;
    var w := text[a..b];
    MatchesOne(sets, Choice(Parens(1, x), Last(Parens(n, y))), w);
    ChoiceTakes(sets, Parens(1, x), Parens(n, y), text, a, b, pm);
    ParensMatch(sets, 1, x, w);
    ParensMatch(sets, n, y, w);
    OccursInParens(n, 1, x);
    OccursInParens(1, n, y);
    if Matches(sets, x, w) {
      GroupAlone(sets, 1, x, text, a, b, pm);
      Untouched(sets, n, Parens(1, x), text, a, b, pm);
    } else {
      GroupAlone(sets, n, y, text, a, b, pm);
      Untouched(sets, 1, Parens(n, y), text, a, b, pm);
    }
  }

  lemma ParensMatch(sets: Sets, i: nat, x: Re, w: Text)
    ensures Matches(sets, Parens(i, x), w) <==> Matches(sets, x, w)
  {
    hide Matches;
    P.GroupMatches(sets, i, x, w);
  }

  lemma BothTake(sets: Sets, x: Re, n: nat, y: Re, text: Text, a: nat, b: nat, pm: seq<Span>) returns (k: nat)
    requires Apart(x, n, y) && a <= b <= |text| && 1 < |pm| && n < |pm|
    requires Matches(sets, Append(Parens(1, x), Parens(n, y)), text[a..b])
    ensures k == NodesEnd(sets, x, Cons(Shut(1), Parens(n, y)), text, a, b)
    ensures a <= k <= b && Matches(sets, x, text[a..k]) && Matches(sets, y, text[k..b])
    ensures var pm' := Dissected(sets, Append(Parens(1, x), Parens(n, y)), text, a, b, pm); pm'[1] == Span(a, k) && pm'[n] == Span(k, b)
    ensures IsFarthest(sets, x, y, text, a, k, b) <==> NoneFarther(sets, x, Cons(Shut(1), Parens(n, y)), text, a, b)
  {
    hide Matches, Dissected, Occurs, Parens, NodesEnd, NoneFarther, Split, IsFarthest;
    var pm';
    var q := Parens(n, y);
    k, pm' := GroupThen(sets, 1, x, q, text, a, b, pm);
    ParensMatch(sets, n, y, text[k..b]);
    GroupAlone(sets, n, y, text, k, b, pm');
    OccursInParens(1, n, y);
    Untouched(sets, 1, q, text, k, b, pm');
    forall w
      ensures Matches(sets, Cons(Shut(1), q), w) <==> Matches(sets, y, w)
    {
      ParensMatch(sets, n, y, w);
      ShutMatches(sets, q, w);
    }
    MatchesAppend(sets, x, Cons(Shut(1), q), text[a..k], text[k..b]);
    assert text[a..k] + text[k..b] == text[a..b];
    FarthestIff(sets, x, Cons(Shut(1), q), text, a, b);
    AlikeFarthest(sets, x, Cons(Shut(1), q), y, text, a, k, b);
  }

  lemma AlikeFarthest(sets: Sets, x: Re, q: Re, y: Re, text: Text, a: nat, e: nat, stop: nat)
    requires stop <= |text| && forall w :: Matches(sets, q, w) <==> Matches(sets, y, w)
    ensures IsFarthest(sets, x, q, text, a, e, stop) <==> IsFarthest(sets, x, y, text, a, e, stop)
  {
    hide Matches;
    forall k
      ensures CouldEnd(sets, x, q, text, a, k, stop) <==> CouldEnd(sets, x, y, text, a, k, stop)
    {
    }
  }

  lemma ShutMatches(sets: Sets, q: Re, w: Text)
    ensures Matches(sets, Cons(Shut(1), q), w) <==> Matches(sets, q, w)
  {
    hide Matches;
    if Matches(sets, Cons(Shut(1), q), w) {
      var i := MatchesUncons(sets, Shut(1), q, w);
      assert w[i..] == w;
    }
    if Matches(sets, q, w) {
      MatchesCons(sets, Shut(1), q, [], w);
      assert [] + w == w;
    }
  }
}
