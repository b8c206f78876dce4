/**
  What the outcome of an execution is worth: it does not depend on the representation of the states, the
  groups lie inside the match and match what their bodies say, and the match reported is the leftmost one
  just when no match starts before a cold position.
 */
module SearchProperties {
  import opened Strip
  import opened Language
  import opened Automaton
  import opened Runs
  import opened Engine
  import opened Dissection
  import opened Execution

  // The representation does not matter

  lemma FirstEndUnique(sets: Sets, re: Re, text: Text, start: nat, p: nat, q: nat)
    requires start <= p <= |text| && start <= q <= |text|
    requires FirstEnd(sets, re, text, start, p) && FirstEnd(sets, re, text, start, q)
    ensures p == q
  {
    hide Matches;
  }

  lemma ReportedUnique(g: Guts, re: Re, text: Text, start: nat, stop: nat, s: Span, t: Span)
    requires 0 < |g.strip| - 1 && start <= stop <= |text|
    requires Reported(g, re, text, start, stop, s) && Reported(g, re, text, start, stop, t)
    ensures s == t
  {
    hide Matches, ColdAt, FirstEnd;
    var c: nat, p: nat :| ReportedFrom(g, re, text, start, stop, s, c, p);
    var d: nat, q: nat :| ReportedFrom(g, re, text, start, stop, t, d, q);
    FirstEndUnique(g.sets, re, text, start, p, q);
    assert c == d;
    assert s.so == t.so;
  }

  /**
    Two executions on the same strip, text and request, whatever the representation each ran on, return the
    same and leave the same in every place of the result.
   */
  lemma OutcomeUnique(g: Guts, re: Re, text: Text, before: seq<Span>, nmatch: nat, eflags: Eflags,
                      rc: Rc, after: seq<Span>, rc': Rc, after': seq<Span>)
    requires 0 < |g.strip| - 1 && (eflags.startend ==> |before| > 0 && 0 <= before[0].so && before[0].eo <= |text|)
    requires nmatch <= |before|
    requires Outcome(g, re, text, before, nmatch, eflags, rc, after)
    requires Outcome(g, re, text, before, nmatch, eflags, rc', after')
    ensures rc == rc' && after == after'
  {
    hide Matches, MatchIn, Reported, Dissected;
    var (start, stop) := Bounds(text, before, eflags);
    var n := if g.nosub then 0 else nmatch;
    assert rc == rc';
    if rc == OKAY && n > 0 {
      ReportedUnique(g, re, text, start, stop, after[0], after'[0]);
    }
    assert forall i :: 0 <= i < |before| ==> after[i] == after'[i];
  }

  /** Both engines, one after the other on copies of the same request. */
  method BothRepresentations(g: Guts, ghost re: Re, text: Text, nmatch: nat, pm: seq<Span>, eflags: Eflags)
      returns (rc: Rc, words: seq<Span>, bytes: seq<Span>)
    requires Compiled(g, re) && |g.strip| <= 32 && nmatch <= |pm|
    requires eflags.startend ==> |pm| > 0 && 0 <= pm[0].so && pm[0].eo <= |text|
    ensures words == bytes
    ensures 0 < |g.strip| - 1 && Outcome(g, re, text, pm, nmatch, eflags, rc, words)
  {
    hide Compiled, Outcome;
    var a := new Span[|pm|](i requires 0 <= i < |pm| => pm[i]);
    var b := new Span[|pm|](i requires 0 <= i < |pm| => pm[i]);
    assert a[..] == pm && b[..] == pm;
    rc := Matcher(g, re, false, text, nmatch, a, eflags);
    assert b[..] == pm;
    var rc' := Matcher(g, re, true, text, nmatch, b, eflags);
    words, bytes := a[..], b[..];
    OutcomeUnique(g, re, text, pm, nmatch, eflags, rc, words, rc', bytes);
  }

  // Groups

  /** Every group reported lies inside the match, on text its own body stands for. */
  lemma GroupsInsideMatch(g: Guts, re: Re, text: Text, before: seq<Span>, nmatch: nat, eflags: Eflags, after: seq<Span>, i: nat)
    requires Compiled(g, re) && 0 < |g.strip| - 1
    requires eflags.startend ==> |before| > 0 && 0 <= before[0].so && before[0].eo <= |text|
    requires nmatch <= |before| && Outcome(g, re, text, before, nmatch, eflags, OKAY, after)
    requires !g.nosub && 1 <= i < nmatch
    ensures 0 <= after[0].so <= after[0].eo <= |text| && Matches(g.sets, re, text[after[0].so..after[0].eo])
    ensures after[i] == Span(-1, -1) || GroupIn(g.sets, i, re, text, after[0].so, after[0].eo, after[i])
    ensures TopLevel(i, re) ==> after[i] != Span(-1, -1)
  {
    hide Matches, MatchIn, Dissected, Paired, Occurs, GroupIn, TopLevel, Code, ColdAt, FirstEnd;
    var (start, stop) := Bounds(text, before, eflags);
    var c: nat, p: nat :| ReportedFrom(g, re, text, start, stop, after[0], c, p);
    TopOccurs(i, re);
    if i <= g.nsub {
      GroupsMatch(g.sets, i, re, text, after[0].so, after[0].eo, NoSpans(g.nsub + 1));
      GroupInBounds(g.sets, i, re, text, after[0].so, after[0].eo, after[i]);
    }
  }

  lemma {:induction false} TopOccurs(i: nat, re: Re)
    ensures TopLevel(i, re) ==> Occurs(i, re)
    decreases re
  {
    if re.Cons? { TopOccurs(i, re.tail); }
  }

  lemma GroupInBounds(sets: Sets, i: nat, re: Re, text: Text, a: nat, stop: nat, s: Span)
    requires a <= stop <= |text|
    ensures GroupIn(sets, i, re, text, a, stop, s) ==> s != Span(-1, -1)
  {
  }

  // Leftmost

  /** No match starts before the one reported. */
  ghost predicate Leftmost(g: Guts, re: Re, text: Text, start: nat, stop: nat, s: Span)
    requires start <= stop <= |text|
  {
    NoStart(g.sets, re, text, start, s.so, stop)
  }

  /** At some cold position, no later than the end of the first match to end, a match has begun already. */
  ghost predicate ColdTooSoon(g: Guts, re: Re, text: Text, start: nat, stop: nat)
    requires 0 < |g.strip| - 1 && start <= stop <= |text|
  {
    exists p: nat, q: nat :: start <= q <= p <= stop && FirstEnd(g.sets, re, text, start, p) && ColdAt(g, text, start, q) &&
      !NoStart(g.sets, re, text, start, q, stop)
  }

  /** Exactly when the match reported is the leftmost. */
  lemma LeftmostIff(g: Guts, re: Re, text: Text, start: nat, stop: nat, s: Span)
    requires 0 < |g.strip| - 1 && start <= stop <= |text|
    requires Reported(g, re, text, start, stop, s)
    ensures Leftmost(g, re, text, start, stop, s) <==> !ColdTooSoon(g, re, text, start, stop)
  {
    hide Matches, ColdAt, FirstEnd;
    var c: nat, p: nat :| ReportedFrom(g, re, text, start, stop, s, c, p);
    if !Leftmost(g, re, text, start, stop, s) {
      var j, k :| start <= j < s.so && j <= k <= stop && Matches(g.sets, re, text[j..k]);
      assert j < c;
      assert !NoStart(g.sets, re, text, start, c, stop);
    }
    if ColdTooSoon(g, re, text, start, stop) {
      var p': nat, q: nat :| start <= q <= p' <= stop && FirstEnd(g.sets, re, text, start, p') && ColdAt(g, text, start, q) &&
        !NoStart(g.sets, re, text, start, q, stop);
      FirstEndUnique(g.sets, re, text, start, p, p');
      assert q <= c;
    }
  }

  /** A match that began before a cold position and ends after it has another, from that position, that ends with it. */
  lemma ColdStarts(g: Guts, re: Re, text: Text, start: nat, p: nat, j: nat, k: nat)
    requires Compiled(g, re) && 0 < |g.strip| - 1 && start <= j <= p <= k <= |text|
    requires ColdAt(g, text, start, p) && Matches(g.sets, re, text[j..k])
    ensures Matches(g.sets, re, text[p..k])
  {
    hide Compiled, Run, WellFormed, Matches;
    CompiledHolds(g, re);
    var hi := |g.strip| - 1;
    assert text[p..p] == [];
    RunsOn(g.strip, g.sets, 1, hi, text, j, p, k);
    HitIsMatch(g, re, text, hi, j, k);
    HitIsMatch(g, re, text, hi, p, k);
  }

  lemma {:induction false} RunsOn(strip: seq<Sop>, sets: Sets, lo: nat, hi: nat, text: Text, j: nat, p: nat, k: nat)
    requires lo <= hi <= |strip| && WellFormed(strip, lo, hi) && j <= p <= k <= |text|
    requires Run(strip, sets, lo, hi, text[j..p]) <= Run(strip, sets, lo, hi, text[p..p])
    ensures Run(strip, sets, lo, hi, text[j..k]) <= Run(strip, sets, lo, hi, text[p..k])
    decreases k - p
  {
    hide Run, WellFormed;
    if k > p {
      RunsOn(strip, sets, lo, hi, text, j, p, k - 1);
      assert text[j..k] == text[j..k - 1] + [text[k - 1]] && text[p..k] == text[p..k - 1] + [text[k - 1]];
      OneMoreOn(strip, sets, lo, hi, text[j..k - 1], text[p..k - 1], text[k - 1]);
    }
  }

  lemma OneMoreOn(strip: seq<Sop>, sets: Sets, lo: nat, hi: nat, u: Text, v: Text, c: Ch)
    requires lo <= hi <= |strip| && WellFormed(strip, lo, hi) && Run(strip, sets, lo, hi, u) <= Run(strip, sets, lo, hi, v)
    ensures Run(strip, sets, lo, hi, u + [c]) <= Run(strip, sets, lo, hi, v + [c])
  {
    hide Run, WellFormed, Closure;
    RunSnoc(strip, sets, lo, hi, u, c);
    RunSnoc(strip, sets, lo, hi, v, c);
    var a := After(strip, sets, lo, hi, Run(strip, sets, lo, hi, u), c);
    var b := After(strip, sets, lo, hi, Run(strip, sets, lo, hi, v), c);
    assert a <= b;
    ClosureIsClosed(strip, lo, hi, b);
    ClosureIsLeast(strip, lo, hi, a, Closure(strip, lo, hi, b));
  }

  /** No state directly after a character operator is one a fresh start is in. */
  ghost predicate ColdSafe(g: Guts)
    requires 0 < |g.strip| - 1
  {
    forall pc :: 1 <= pc < |g.strip| - 1 && g.strip[pc].op in {OCHAR, OANY, OANYOF} ==>
      pc + 1 !in Run(g.strip, g.sets, 1, |g.strip| - 1, [])
  }

  /** On such a strip a cold position has no attempt under way at all. */
  lemma ColdIsEmpty(g: Guts, text: Text, start: nat, p: nat, j: nat)
    requires 0 < |g.strip| - 1 && WellFormed(g.strip, 1, |g.strip| - 1) && ColdSafe(g)
    requires start <= j < p <= |text| && ColdAt(g, text, start, p)
    ensures Run(g.strip, g.sets, 1, |g.strip| - 1, text[j..p]) == {}
  {
    hide Closure, WellFormed, Run;
    var hi := |g.strip| - 1;
    var w := text[j..p - 1];
    assert text[j..p] == w + [text[p - 1]];
    RunSnoc(g.strip, g.sets, 1, hi, w, text[p - 1]);
    var after := After(g.strip, g.sets, 1, hi, Run(g.strip, g.sets, 1, hi, w), text[p - 1]);
    ClosureIsClosed(g.strip, 1, hi, after);
    var anew := Run(g.strip, g.sets, 1, hi, []);
    assert after <= anew;
    assert forall q :: q in after ==> q !in anew;
    assert after == {};
    ClosureOfNothing(g.strip, 1, hi);
  }

  /** On such a strip the match reported is the leftmost, in every text. */
  lemma ColdSafeIsLeftmost(g: Guts, re: Re, text: Text, start: nat, stop: nat, s: Span)
    requires Compiled(g, re) && 0 < |g.strip| - 1 && start <= stop <= |text|
    requires ColdSafe(g) && Reported(g, re, text, start, stop, s)
    ensures Leftmost(g, re, text, start, stop, s)
  {
    hide Compiled, Matches, ColdAt, Run, WellFormed, ColdSafe, Accepts, Reported;
    CompiledHolds(g, re);
    var hi := |g.strip| - 1;
    if ColdTooSoon(g, re, text, start, stop) {
      var p: nat, q: nat :| start <= q <= p <= stop && FirstEnd(g.sets, re, text, start, p) && ColdAt(g, text, start, q) &&
        !NoStart(g.sets, re, text, start, q, stop);
      var j, k :| start <= j < q && j <= k <= stop && Matches(g.sets, re, text[j..k]);
      assert k >= p;
      ColdIsEmpty(g, text, start, q, j);
      RunDead(g.strip, g.sets, 1, hi, text[j..q], text[q..k]);
      assert text[j..q] + text[q..k] == text[j..k];
      HitIsMatch(g, re, text, hi, j, k);
      NoStates(g, text, hi, j, k);
    }
    LeftmostIff(g, re, text, start, stop, s);
  }

  lemma NoStates(g: Guts, text: Text, hi: nat, j: nat, k: nat)
    requires Region(g, 1, hi) && j <= k <= |text| && Run(g.strip, g.sets, 1, hi, text[j..k]) == {}
    ensures !Hits(g, text, 1, hi, j, k)
  {
  }

  // Leftmost in every text

  /** Whatever is reported, in any text, is the leftmost match. */
  ghost predicate AlwaysLeftmost(g: Guts, re: Re)
    requires 0 < |g.strip| - 1
  {
    forall text: Text, start: nat, stop: nat, s ::
      start <= stop <= |text| && Reported(g, re, text, start, stop, s) ==> Leftmost(g, re, text, start, stop, s)
  }

  /** Inside the match w, before any match in it has ended, no attempt under way at q is in a state a fresh start is not in. */
  ghost predicate ColdInside(g: Guts, re: Re, w: Text, q: nat)
    requires 0 < |g.strip| - 1
  {
    && Matches(g.sets, re, w) && 0 < q <= |w| && ColdAt(g, w, 0, q)
    && forall j, k :: 0 <= j <= k < q ==> !Matches(g.sets, re, w[j..k])
  }

  /** A match reported is always the leftmost just when no match of the expression goes cold inside. */
  lemma AlwaysLeftmostIff(g: Guts, re: Re)
    requires Compiled(g, re) && 0 < |g.strip| - 1
    ensures AlwaysLeftmost(g, re) <==> forall w: Text, q: nat :: !ColdInside(g, re, w, q)
  {
    hide Compiled, Reported, Leftmost, ColdInside;
    if forall w: Text, q: nat :: !ColdInside(g, re, w, q) {
      forall text: Text, start: nat, stop: nat, s | start <= stop <= |text| && Reported(g, re, text, start, stop, s)
        ensures Leftmost(g, re, text, start, stop, s)
      {
        if !Leftmost(g, re, text, start, stop, s) {
          var w, q := GoesCold(g, re, text, start, stop, s);
          assert false;
        }
      }
    }
    if AlwaysLeftmost(g, re) {
      forall w: Text, q: nat
        ensures !ColdInside(g, re, w, q)
      {
        if ColdInside(g, re, w, q) {
          var s := MissesCold(g, re, w, q);
          assert false;
        }
      }
    }
  }

  lemma GoesCold(g: Guts, re: Re, text: Text, start: nat, stop: nat, s: Span) returns (w: Text, q: nat)
    requires 0 < |g.strip| - 1 && start <= stop <= |text|
    requires Reported(g, re, text, start, stop, s) && !Leftmost(g, re, text, start, stop, s)
    ensures ColdInside(g, re, w, q)
  {
    hide Matches, Run, FirstEnd, Reported, Leftmost;
    LeftmostIff(g, re, text, start, stop, s);
    var p: nat, c: nat :| start <= c <= p <= stop && FirstEnd(g.sets, re, text, start, p) && ColdAt(g, text, start, c) &&
      !NoStart(g.sets, re, text, start, c, stop);
    var j: nat, k: nat :| start <= j < c && j <= k <= stop && Matches(g.sets, re, text[j..k]);
    NoneEndsBefore(g.sets, re, text, start, p);
    assert k >= p;
    w, q := text[j..k], c - j;
    forall a | 0 <= a <= q
      ensures Run(g.strip, g.sets, 1, |g.strip| - 1, w[a..q]) <= Run(g.strip, g.sets, 1, |g.strip| - 1, [])
    {
      SliceOf(text, j, k, a, q);
    }
    forall a, b | 0 <= a <= b < q
      ensures !Matches(g.sets, re, w[a..b])
    {
      SliceOf(text, j, k, a, b);
    }
  }

  lemma SliceOf(text: Text, j: nat, k: nat, a: nat, b: nat)
    requires j <= k <= |text| && a <= b <= k - j
    ensures text[j..k][a..b] == text[j + a..j + b]
  {
    var u, v := text[j..k][a..b], text[j + a..j + b];
    forall i | 0 <= i < b - a
      ensures u[i] == v[i]
    {
      assert u[i] == text[j..k][a + i];
    }
    assert |u| == |v|;
  }

  lemma NoneEndsBefore(sets: Sets, re: Re, text: Text, start: nat, p: nat)
    requires start <= p <= |text| && FirstEnd(sets, re, text, start, p)
    ensures forall j, k :: start <= j <= k < p ==> !Matches(sets, re, text[j..k])
    ensures exists j :: start <= j <= p && Matches(sets, re, text[j..p])
  {
    hide Matches;
  }

  lemma MissesCold(g: Guts, re: Re, w: Text, q: nat) returns (s: Span)
    requires Compiled(g, re) && 0 < |g.strip| - 1 && ColdInside(g, re, w, q)
    ensures Reported(g, re, w, 0, |w|, s) && !Leftmost(g, re, w, 0, |w|, s)
  {
    hide Compiled, Matches, ColdAt, FirstEnd, Leftmost, Reported;
    assert w[0..|w|] == w;
    var p;
    s, p := SomeReported(g, re, w, 0, |w|, 0, |w|);
    NoneEndsBefore(g.sets, re, w, 0, p);
    assert ColdTooSoon(g, re, w, 0, |w|);
    LeftmostIff(g, re, w, 0, |w|, s);
  }

  /** Where there is a match one is reported. */
  lemma SomeReported(g: Guts, re: Re, text: Text, start: nat, stop: nat, j: nat, k: nat) returns (s: Span, p: nat)
    requires Compiled(g, re) && 0 < |g.strip| - 1 && start <= j <= k <= stop <= |text| && Matches(g.sets, re, text[j..k])
    ensures Reported(g, re, text, start, stop, s) && start <= p <= stop && FirstEnd(g.sets, re, text, start, p)
  {
    hide Compiled, Matches, ColdAt, FirstEnd, Longest, Run;
    p := FirstToEnd(g.sets, re, text, start, j, k);
    NoneEndsBefore(g.sets, re, text, start, p);
    var i: nat :| start <= i <= p && Matches(g.sets, re, text[i..p]);
    var c := LastColdOne(g, text, start, p);
    if i < c { ColdStarts(g, re, text, start, c, i, p); }
    var so := FirstToStart(g.sets, re, text, c, if i < c then c else i, p, stop);
    LongestHolds(g.sets, re, text, so, stop);
    s := Span(so, Longest(g.sets, re, text, so, stop));
    assert ReportedFrom(g, re, text, start, stop, s, c, p);
  }

  lemma {:induction false} FirstToEnd(sets: Sets, re: Re, text: Text, start: nat, j: nat, k: nat) returns (p: nat)
    requires start <= j <= k <= |text| && Matches(sets, re, text[j..k])
    ensures p <= k && start <= p && FirstEnd(sets, re, text, start, p)
    decreases k
  {
    hide Matches;
    if a: nat, b: nat :| start <= a <= b < k && Matches(sets, re, text[a..b]) {
      p := FirstToEnd(sets, re, text, start, a, b);
    } else {
      p := k;
    }
  }

  lemma {:induction false} LastColdOne(g: Guts, text: Text, start: nat, p: nat) returns (c: nat)
    requires 0 < |g.strip| - 1 && start <= p <= |text|
    ensures start <= c <= p && ColdAt(g, text, start, c) && forall q :: c < q <= p ==> !ColdAt(g, text, start, q)
    decreases p
  {
    hide Run;
    if ColdAt(g, text, start, p) {
      c := p;
    } else {
      assert p > start by { assert text[start..start] == []; }
      c := LastColdOne(g, text, start, p - 1);
    }
  }

  lemma {:induction false} FirstToStart(sets: Sets, re: Re, text: Text, c: nat, a: nat, k: nat, stop: nat) returns (so: nat)
    requires c <= a <= k <= stop <= |text| && Matches(sets, re, text[a..k])
    ensures c <= so <= a && NoStart(sets, re, text, c, so, stop)
    ensures exists b :: so <= b <= stop && Matches(sets, re, text[so..b])
    decreases a
  {
    hide Matches;
    if d: nat, b: nat :| c <= d < a && d <= b <= stop && Matches(sets, re, text[d..b]) {
      so := FirstToStart(sets, re, text, c, d, b, stop);
    } else {
      so := a;
    }
  }

  // A strip that is not safe: (z*|x)b reports only the b of xb

  const Z: Re := Cons(Maybe(Cons(Loop(Cons(Lit('z'), Nil)), Nil)), Nil)
  const X: Re := Cons(Lit('x'), Nil)
  const B: Re := Cons(Lit('b'), Nil)
  const Z_OR_X: Node := Choice(Z, Last(X))
  const Z_OR_X_THEN_B: Re := Cons(Open(1), Cons(Z_OR_X, Cons(Shut(1), B)))

  lemma UnsafeLengths()
    ensures Len(X) == 1 && Len(B) == 1 && Len(Cons(Lit('z'), Nil)) == 1 && Len(Z.head.body) == 3 && Len(Z) == 5
    ensures AltsLen(Last(X)) == 3 && NodeLen(Z_OR_X) == 10 && Len(Z_OR_X_THEN_B) == 13
  {
    assert Len(Z.head.body) == 3;
  }

  lemma AtCons(strip: seq<Sop>, lo: nat, h: Node, t: Re)
    requires At(strip, lo, Cons(h, t))
    ensures AtNode(strip, lo, h) && At(strip, lo + NodeLen(h), t) && lo < |strip|
  {
    hide At, Len, NodeLen;
    ConsAt(strip, lo, h, t);
    NodeInside(strip, lo, h);
  }

  lemma NodeInside(strip: seq<Sop>, lo: nat, n: Node)
    requires AtNode(strip, lo, n)
    ensures lo + NodeLen(n) <= |strip|
  {
    hide At, Len, NodeLen;
  }

  /** Where the operators of (z*|x)b stand. */
  lemma UnsafeStrip(strip: seq<Sop>)
    requires At(strip, 1, Z_OR_X_THEN_B)
    ensures |strip| >= 14
    ensures strip[1].op == OLPAREN && strip[2] == Sop(OCH_, 7) && strip[8].op == OOR1 && strip[9] == Sop(OOR2, 2)
    ensures strip[10] == Sop(OCHAR, 'x' as int) && strip[11].op == O_CH
    ensures strip[12].op == ORPAREN && strip[13] == Sop(OCHAR, 'b' as int)
    ensures At(strip, 3, Z)
  {
    hide At, Len, NodeLen, AltsLen;
    UnsafeLengths();
    Lengths(Open(1));
    Lengths(Shut(1));
    AtCons(strip, 1, Open(1), Cons(Z_OR_X, Cons(Shut(1), B)));
    AtCons(strip, 2, Z_OR_X, Cons(Shut(1), B));
    AtCons(strip, 12, Shut(1), B);
    AtCons(strip, 13, Lit('b'), Nil);
    AtCons(strip, 10, Lit('x'), Nil);
  }

  lemma UnsafeStar(strip: seq<Sop>)
    requires At(strip, 3, Z)
    ensures |strip| >= 8 && strip[3] == Sop(OQUEST_, 4) && strip[4].op == OPLUS_
    ensures strip[5] == Sop(OCHAR, 'z' as int) && strip[6].op == O_PLUS && strip[7].op == O_QUEST
  {
    hide At, Len, NodeLen;
    UnsafeLengths();
    AtCons(strip, 3, Z.head, Nil);
    Lengths(Z.head);
    AtCons(strip, 4, Z.head.body.head, Nil);
    Lengths(Z.head.body.head);
    AtCons(strip, 5, Lit('z'), Nil);
  }

  // What (z*|x)b matches: b and xb, and nothing that does not end in b.

  lemma UnsafeMatches(sets: Sets, u: Text)
    requires u == [] || u == ['x']
    ensures Matches(sets, Z_OR_X_THEN_B, u + ['b'])
  {
    hide Matches, MatchesNode;
    UnsafeChoice(sets);
    UnsafeEnd(sets);
    MatchesCons(sets, Z_OR_X, Cons(Shut(1), B), u, ['b']);
    MatchesCons(sets, Open(1), Cons(Z_OR_X, Cons(Shut(1), B)), [], u + ['b']);
    assert [] + (u + ['b']) == u + ['b'];
  }

  lemma UnsafeLast(sets: Sets, w: Text)
    ensures Matches(sets, Z_OR_X_THEN_B, w) ==> w != [] && w[|w| - 1] == 'b'
  {
    hide Matches, MatchesNode;
    if Matches(sets, Z_OR_X_THEN_B, w) {
      UnsafeEnd(sets);
      var i := MatchesUncons(sets, Open(1), Cons(Z_OR_X, Cons(Shut(1), B)), w);
      var v := w[i..];
      var j := MatchesUncons(sets, Z_OR_X, Cons(Shut(1), B), v);
      assert v[j..] == ['b'];
      assert w[|w| - 1] == v[j..][0];
    }
  }

  lemma UnsafeChoice(sets: Sets)
    ensures MatchesNode(sets, Z_OR_X, []) && MatchesNode(sets, Z_OR_X, ['x']) && MatchesNode(sets, Open(1), [])
  {
    hide Matches;
    MatchesOne(sets, Z.head, []);
    MatchesOne(sets, Lit('x'), ['x']);
  }

  lemma UnsafeEnd(sets: Sets)
    ensures forall w :: Matches(sets, Cons(Shut(1), B), w) <==> w == ['b']
  {
    hide Matches;
    forall w
      ensures Matches(sets, Cons(Shut(1), B), w) <==> w == ['b']
    {
      if Matches(sets, Cons(Shut(1), B), w) {
        var i := MatchesUncons(sets, Shut(1), B, w);
        MatchesOne(sets, Lit('b'), w[i..]);
        assert w == w[..i] + w[i..];
      }
      MatchesOne(sets, Lit('b'), ['b']);
      MatchesCons(sets, Shut(1), B, [], ['b']);
      assert [] + ['b'] == ['b'];
    }
  }

  /** After x, read from the start, the automaton is in states it was in before. */
  lemma UnsafeCold(g: Guts)
    requires Compiled(g, Z_OR_X_THEN_B)
    ensures |g.strip| == 15
    ensures Run(g.strip, g.sets, 1, 14, ['x']) <= Run(g.strip, g.sets, 1, 14, [])
  {
    hide Compiled, Run, WellFormed, Code, Closure, At, Len, AltsLen, NodeLen;
    CompiledHolds(g, Z_OR_X_THEN_B);
    UnsafeLengths();
    var strip, sets := g.strip, g.sets;
    UnsafeStrip(strip);
    UnsafeStar(strip);
    var anew := Run(strip, sets, 1, 14, []);
    RunStart(strip, sets, 1, 14);
    RunEmpty(strip, sets, 1, 14, [], 1, 2);
    RunEmpty(strip, sets, 1, 14, [], 2, 3);
    RunEmpty(strip, sets, 1, 14, [], 3, 7);
    RunEmpty(strip, sets, 1, 14, [], 7, 8);
    assert EndOfChoice(strip, 11) == 11 && EndOfChoice(strip, 9) == 11;
    RunEmpty(strip, sets, 1, 14, [], 8, 11);
    var after := After(strip, sets, 1, 14, anew, 'x');
    assert after <= {11};
    RunClosed(strip, sets, 1, 14, []);
    ClosureIsClosed(strip, 1, 14, anew);
    assert ClosedAbove(strip, 1, 14, after, anew);
    ClosureIsLeast(strip, 1, 14, after, anew);
    RunSnoc(strip, sets, 1, 14, [], 'x');
    assert [] + ['x'] == ['x'];
  }

  /** (z*|x)b matches all of xb, yet whatever match is reported in that text is the b alone. */
  lemma LeftmostCanFail(g: Guts, text: Text)
    requires Compiled(g, Z_OR_X_THEN_B) && text == ['x', 'b']
    ensures |g.strip| == 15 && Matches(g.sets, Z_OR_X_THEN_B, text)
    ensures forall s :: Reported(g, Z_OR_X_THEN_B, text, 0, 2, s) <==> s == Span(1, 2)
    ensures !Leftmost(g, Z_OR_X_THEN_B, text, 0, 2, Span(1, 2))
  {
    hide Compiled, Run, WellFormed, Matches, Accepts, Code, Len, Paired, Occurs, Leftmost, Reported, ReportedFrom, FirstEnd;
    UnsafeCold(g);
    UnsafeMatches(g.sets, ['x']);
    assert ['x'] + ['b'] == text;
    assert text[0..1] == ['x'] && text[1..1] == [];
    assert ColdAt(g, text, 0, 1);
    UnsafeNotCold(g, text);
    UnsafeReport(g, text);
    forall s | Reported(g, Z_OR_X_THEN_B, text, 0, 2, s)
      ensures s == Span(1, 2)
    {
      ReportedUnique(g, Z_OR_X_THEN_B, text, 0, 2, s, Span(1, 2));
    }
  }

  lemma UnsafeReport(g: Guts, text: Text)
    requires Compiled(g, Z_OR_X_THEN_B) && |g.strip| == 15 && text == ['x', 'b']
    requires ColdAt(g, text, 0, 1) && !ColdAt(g, text, 0, 2)
    ensures Reported(g, Z_OR_X_THEN_B, text, 0, 2, Span(1, 2)) && !Leftmost(g, Z_OR_X_THEN_B, text, 0, 2, Span(1, 2))
  {
    hide Compiled, Run, Matches, Code, Len, ColdAt;
    var re := Z_OR_X_THEN_B;
    UnsafeMatches(g.sets, []);
    UnsafeMatches(g.sets, ['x']);
    UnsafeLast(g.sets, ['x']);
    UnsafeLast(g.sets, []);
    assert [] + ['b'] == ['b'] && ['x'] + ['b'] == text;
    assert text[1..2] == ['b'] && text[0..2] == text;
    assert FirstEnd(g.sets, re, text, 0, 2);
    assert ReportedFrom(g, re, text, 0, 2, Span(1, 2), 1, 2);
  }

  lemma UnsafeNotCold(g: Guts, text: Text)
    requires Compiled(g, Z_OR_X_THEN_B) && |g.strip| == 15 && text == ['x', 'b']
    ensures !ColdAt(g, text, 0, 2)
  {
    hide Compiled, Run, WellFormed, Matches, Code, Len, Paired, Occurs, At;
    var re := Z_OR_X_THEN_B;
    CompiledHolds(g, re);
    UnsafeMatches(g.sets, []);
    UnsafeLast(g.sets, []);
    assert [] + ['b'] == ['b'];
    HitIsMatch(g, re, text, 14, 1, 2);
    HitIsMatch(g, re, text, 14, 1, 1);
    assert text[1..2] == ['b'] && text[1..1] == [];
  }
}
