/**
  Which part of a match each group gets.  The rule is stated on the expression alone: node by node from
  the left, each node takes the longest stretch after which the rest can still match; a loop's groups
  are those of its last iteration, a choice's those of its first branch that fits.
 */
module Dissection {
  import opened Strip
  import opened Language

  /** Where a group matched; -1 when it did not. */
  datatype Span = Span(so: int, eo: int)

  /** The end of the longest match of re from a, no later than b; -1 if there is none. */
  ghost function Longest(sets: Sets, re: Re, text: Text, a: nat, b: nat): (p: int)
    requires a <= b <= |text|
    ensures p == -1 || a <= p <= b
    decreases b - a
  {
    if Matches(sets, re, text[a..b]) then b
    else if a == b then -1
    else Longest(sets, re, text, a, b - 1)
  }

  lemma {:induction false} LongestIs(sets: Sets, re: Re, text: Text, a: nat, b: nat, p: int)
    requires a <= b <= |text|
    requires p == -1 || (a <= p <= b && Matches(sets, re, text[a..p]))
    requires forall k :: p < k && a <= k <= b ==> !Matches(sets, re, text[a..k])
    ensures p == Longest(sets, re, text, a, b)
    decreases b - a
  {
    if p != b && a < b { LongestIs(sets, re, text, a, b - 1, p); }
  }

  lemma {:induction false} LongestHolds(sets: Sets, re: Re, text: Text, a: nat, b: nat)
    requires a <= b <= |text|
    ensures var p := Longest(sets, re, text, a, b);
      && (p == -1 || Matches(sets, re, text[a..p]))
      && (forall k :: p < k && a <= k <= b ==> !Matches(sets, re, text[a..k]))
      && (p == b <==> Matches(sets, re, text[a..b]))
    decreases b - a
  {
    if !Matches(sets, re, text[a..b]) && a < b { LongestHolds(sets, re, text, a, b - 1); }
  }

  /** The longest stretch from a, ending by stp, that h can take so that t matches the rest up to stop. */
  ghost function Split(sets: Sets, h: Node, t: Re, text: Text, a: nat, stp: nat, stop: nat): (r: int)
    requires a <= stp <= stop <= |text|
    ensures r == -1 || a <= r <= stp
    decreases stp - a
  {
    if MatchesNode(sets, h, text[a..stp]) && Matches(sets, t, text[stp..stop]) then stp
    else if a == stp then -1
    else Split(sets, h, t, text, a, stp - 1, stop)
  }

  lemma {:induction false} SplitHolds(sets: Sets, h: Node, t: Re, text: Text, a: nat, stp: nat, stop: nat)
    requires a <= stp <= stop <= |text|
    ensures var r := Split(sets, h, t, text, a, stp, stop);
      && (r != -1 ==> MatchesNode(sets, h, text[a..r]) && Matches(sets, t, text[r..stop]))
      && (forall k :: r < k && a <= k <= stp ==> !(MatchesNode(sets, h, text[a..k]) && Matches(sets, t, text[k..stop])))
    decreases stp - a
  {
    hide Matches, MatchesNode;
    if !(MatchesNode(sets, h, text[a..stp]) && Matches(sets, t, text[stp..stop])) && a < stp {
      SplitHolds(sets, h, t, text, a, stp - 1, stop);
    }
  }

  /** A concatenation that matches can be split. */
  lemma SplitExists(sets: Sets, h: Node, t: Re, text: Text, a: nat, stop: nat)
    requires a <= stop <= |text| && Matches(sets, Cons(h, t), text[a..stop])
    ensures a <= Split(sets, h, t, text, a, stop, stop) <= stop
  {
    hide Matches, MatchesNode;
    var w := text[a..stop];
    var i := MatchesUncons(sets, h, t, w);
    assert w[..i] == text[a..a + i] && w[i..] == text[a + i..stop];
    SplitHolds(sets, h, t, text, a, stop, stop);
  }

  /** The last iteration of b in text[ssp..rest], going by longest iterations; oldssp is where the one before began. */
  ghost function LastIteration(sets: Sets, b: Re, text: Text, oldssp: nat, ssp: nat, rest: nat): (r: (nat, nat))
    requires oldssp <= ssp <= rest <= |text|
    ensures oldssp <= r.0 <= r.1 <= rest
    decreases rest - ssp
  {
    var sep := Longest(sets, b, text, ssp, rest);
    if sep == -1 then (oldssp, ssp)
    else if sep == ssp then (ssp, ssp)
    else LastIteration(sets, b, text, ssp, sep, rest)
  }

  function SetSo(pm: seq<Span>, i: nat, p: nat): seq<Span> {
    if i < |pm| then pm[i := pm[i].(so := p)] else pm
  }

  function SetEo(pm: seq<Span>, i: nat, p: nat): seq<Span> {
    if i < |pm| then pm[i := pm[i].(eo := p)] else pm
  }

  /** The spans after re has been matched against text[a..stop]. */
  ghost function Dissected(sets: Sets, re: Re, text: Text, a: nat, stop: nat, pm: seq<Span>): (pm': seq<Span>)
    requires a <= stop <= |text|
    ensures |pm'| == |pm|
    decreases re, 1
  {
    match re
    case Nil => pm
    case Cons(h, t) =>
      var r := Split(sets, h, t, text, a, stop, stop);
      if r == -1 then pm
      else Dissected(sets, t, text, r, stop, NodeDissected(sets, h, text, a, r, pm))
  }

  ghost function NodeDissected(sets: Sets, n: Node, text: Text, a: nat, r: nat, pm: seq<Span>): (pm': seq<Span>)
    requires a <= r <= |text|
    ensures |pm'| == |pm|
    decreases n, 1
  {
    match n
    case Open(i) => SetSo(pm, i, a)
    case Shut(i) => SetEo(pm, i, a)
    case Maybe(b) => if Longest(sets, b, text, a, r) != -1 then Dissected(sets, b, text, a, r, pm) else pm
    case Loop(b) =>
      var last := LastIteration(sets, b, text, a, a, r);
      Dissected(sets, b, text, last.0, last.1, pm)
    case Choice(f, o) =>
      if Longest(sets, f, text, a, r) == r then Dissected(sets, f, text, a, r, pm)
      else AltsDissected(sets, o, text, a, r, pm)
    case _ => pm
  }

  ghost function AltsDissected(sets: Sets, o: Alts, text: Text, a: nat, r: nat, pm: seq<Span>): (pm': seq<Span>)
    requires a <= r <= |text|
    ensures |pm'| == |pm|
    decreases o, 1
  {
    if o.Last? || Longest(sets, o.branch, text, a, r) == r then Dissected(sets, o.branch, text, a, r, pm)
    else AltsDissected(sets, o.others, text, a, r, pm)
  }

  // Groups

  predicate Occurs(i: nat, re: Re) {
    match re
    case Nil => false
    case Cons(h, t) => OccursNode(i, h) || Occurs(i, t)
  }

  predicate OccursNode(i: nat, n: Node) {
    match n
    case Open(j) => i == j
    case Shut(j) => i == j
    case Loop(b) => Occurs(i, b)
    case Maybe(b) => Occurs(i, b)
    case Choice(f, o) => Occurs(i, f) || OccursAlts(i, o)
    case _ => false
  }

  predicate OccursAlts(i: nat, a: Alts) {
    match a
    case Last(b) => Occurs(i, b)
    case More(b, o) => Occurs(i, b) || OccursAlts(i, o)
  }

  /** The parentheses of group i come in pairs, each pair in one concatenation and not nested in another. */
  ghost predicate Paired(i: nat, re: Re, open: bool)
    decreases re
  {
    match re
    case Nil => !open
    case Cons(h, t) =>
      if h == Open(i) then !open && Paired(i, t, true)
      else if h == Shut(i) then open && Paired(i, t, false)
      else (OccursNode(i, h) ==> !open && PairedNode(i, h)) && Paired(i, t, open)
  }

  ghost predicate PairedNode(i: nat, n: Node)
    decreases n
  {
    match n
    case Loop(b) => Paired(i, b, false)
    case Maybe(b) => Paired(i, b, false)
    case Choice(f, o) => Paired(i, f, false) && PairedAlts(i, o)
    case _ => true
  }

  ghost predicate PairedAlts(i: nat, a: Alts)
    decreases a
  {
    match a
    case Last(b) => Paired(i, b, false)
    case More(b, o) => Paired(i, b, false) && PairedAlts(i, o)
  }

  /** s is what comes before the next Shut(i) of re, and says nothing of group i itself. */
  ghost predicate Closes(i: nat, re: Re, s: Re)
    decreases re
  {
    match re
    case Nil => false
    case Cons(h, t) =>
      if h == Shut(i) then s == Nil
      else s.Cons? && s.head == h && !OccursNode(i, h) && Closes(i, t, s.tail)
  }

  /** Group i is one of the concatenation's own, not inside a repetition or a choice. */
  ghost predicate TopLevel(i: nat, re: Re) {
    re.Cons? && (re.head == Open(i) || TopLevel(i, re.tail))
  }

  /** Somewhere in re, body stands between the two parentheses of group i. */
  ghost predicate HasGroup(i: nat, re: Re, body: Re)
    decreases re
  {
    match re
    case Nil => false
    case Cons(h, t) => (h == Open(i) && Closes(i, t, body)) || NodeHasGroup(i, h, body) || HasGroup(i, t, body)
  }

  ghost predicate NodeHasGroup(i: nat, n: Node, body: Re)
    decreases n
  {
    match n
    case Loop(b) => HasGroup(i, b, body)
    case Maybe(b) => HasGroup(i, b, body)
    case Choice(f, o) => HasGroup(i, f, body) || AltsHasGroup(i, o, body)
    case _ => false
  }

  ghost predicate AltsHasGroup(i: nat, a: Alts, body: Re)
    decreases a
  {
    match a
    case Last(b) => HasGroup(i, b, body)
    case More(b, o) => HasGroup(i, b, body) || AltsHasGroup(i, o, body)
  }

  /** The span lies in text[a..stop], and its text is one a body of group i stands for. */
  ghost predicate GroupIn(sets: Sets, i: nat, re: Re, text: Text, a: nat, stop: nat, s: Span)
    requires a <= stop <= |text|
  {
    a <= s.so <= s.eo <= stop && exists body :: HasGroup(i, re, body) && Matches(sets, body, text[s.so..s.eo])
  }

  ghost predicate GroupInNode(sets: Sets, i: nat, n: Node, text: Text, a: nat, stop: nat, s: Span)
    requires a <= stop <= |text|
  {
    a <= s.so <= s.eo <= stop && exists body :: NodeHasGroup(i, n, body) && Matches(sets, body, text[s.so..s.eo])
  }

  ghost predicate GroupInAlts(sets: Sets, i: nat, o: Alts, text: Text, a: nat, stop: nat, s: Span)
    requires a <= stop <= |text|
  {
    a <= s.so <= s.eo <= stop && exists body :: AltsHasGroup(i, o, body) && Matches(sets, body, text[s.so..s.eo])
  }

  /** Group i was open when re began: seg had matched from its start, and what follows up to its Shut has matched since. */
  ghost predicate Closed(sets: Sets, i: nat, re: Re, seg: Re, text: Text, from: nat, a: nat, stop: nat, s: Span)
    requires from <= a <= stop <= |text|
  {
    s.so == from && a <= s.eo <= stop && exists c :: Closes(i, re, c) && Matches(sets, Append(seg, c), text[from..s.eo])
  }

  lemma {:induction false} Untouched(sets: Sets, i: nat, re: Re, text: Text, a: nat, stop: nat, pm: seq<Span>)
    requires a <= stop <= |text| && i < |pm| && !Occurs(i, re)
    ensures Dissected(sets, re, text, a, stop, pm)[i] == pm[i]
    decreases re, 1
  {
    hide Matches, MatchesNode, Split;
    match re
    case Nil =>
    case Cons(h, t) =>
      var r := Split(sets, h, t, text, a, stop, stop);
      if r != -1 {
        UntouchedNode(sets, i, h, text, a, r, pm);
        Untouched(sets, i, t, text, r, stop, NodeDissected(sets, h, text, a, r, pm));
      }
  }

  lemma {:induction false} UntouchedNode(sets: Sets, i: nat, n: Node, text: Text, a: nat, r: nat, pm: seq<Span>)
    requires a <= r <= |text| && i < |pm| && !OccursNode(i, n)
    ensures NodeDissected(sets, n, text, a, r, pm)[i] == pm[i]
    decreases n, 1
  {
    hide Matches, MatchesNode, Longest, LastIteration, Dissected;
    match n
    case Maybe(b) => Untouched(sets, i, b, text, a, r, pm);
    case Loop(b) =>
      var last := LastIteration(sets, b, text, a, a, r);
      Untouched(sets, i, b, text, last.0, last.1, pm);
    case Choice(f, o) =>
      Untouched(sets, i, f, text, a, r, pm);
      UntouchedAlts(sets, i, o, text, a, r, pm);
    case _ =>
  }

  lemma {:induction false} UntouchedAlts(sets: Sets, i: nat, o: Alts, text: Text, a: nat, r: nat, pm: seq<Span>)
    requires a <= r <= |text| && i < |pm| && !OccursAlts(i, o)
    ensures AltsDissected(sets, o, text, a, r, pm)[i] == pm[i]
    decreases o, 1
  {
    hide Matches, MatchesNode, Longest, Dissected;
    Untouched(sets, i, o.branch, text, a, r, pm);
    if o.More? { UntouchedAlts(sets, i, o.others, text, a, r, pm); }
  }

  /** Iterations: the last one, wherever the longest-first walk ends, is a match of the body. */
  lemma {:induction false} LastIterationMatches(sets: Sets, b: Re, text: Text, oldssp: nat, ssp: nat, rest: nat)
    requires oldssp <= ssp <= rest <= |text|
    requires Matches(sets, b, text[oldssp..ssp]) || Longest(sets, b, text, ssp, rest) != -1
    ensures var last := LastIteration(sets, b, text, oldssp, ssp, rest); Matches(sets, b, text[last.0..last.1])
    decreases rest - ssp
  {
    hide Matches;
    LongestHolds(sets, b, text, ssp, rest);
    var sep := Longest(sets, b, text, ssp, rest);
    if sep != -1 && sep != ssp { LastIterationMatches(sets, b, text, ssp, sep, rest); }
  }

  /** A loop that matches has a first iteration. */
  lemma FirstIteration(sets: Sets, b: Re, text: Text, a: nat, r: nat)
    requires a <= r <= |text| && MatchesNode(sets, Loop(b), text[a..r])
    ensures Longest(sets, b, text, a, r) != -1
  {
    hide Matches, Longest;
    var w := text[a..r];
    var k: nat :| k >= 1 && Power(sets, b, k, w);
    var i := PowerSplit(sets, b, 1, k - 1, w);
    PowerOne(sets, b, w[..i]);
    assert w[..i] == text[a..a + i];
    LongestHolds(sets, b, text, a, r);
  }

  /** Every group touched, and every group of the concatenation itself, ends up with a span of text that its body stands for. */
  lemma {:induction false} GroupsMatch(sets: Sets, i: nat, re: Re, text: Text, a: nat, stop: nat, pm: seq<Span>)
    requires a <= stop <= |text| && i < |pm|
    requires Matches(sets, re, text[a..stop]) && Paired(i, re, false)
    ensures var s := Dissected(sets, re, text, a, stop, pm)[i];
      GroupIn(sets, i, re, text, a, stop, s) || (s == pm[i] && !TopLevel(i, re))
    decreases re, 2
  {
    hide Matches, MatchesNode, Split, GroupIn, Dissected;
    match re
    case Nil => DissectedNil(sets, text, a, stop, pm);
    case Cons(h, t) =>
      SplitExists(sets, h, t, text, a, stop);
      SplitHolds(sets, h, t, text, a, stop, stop);
      var r := Split(sets, h, t, text, a, stop, stop);
      var pm1 := NodeDissected(sets, h, text, a, r, pm);
      DissectedCons(sets, h, t, text, a, stop, pm);
      var s := Dissected(sets, re, text, a, stop, pm)[i];
      if h == Open(i) {
        OpensAt(sets, i, text, a, r);
        OpenGroupsMatch(sets, i, t, text, r, stop, pm1, a, Nil);
        OpenedHere(sets, i, t, text, a, r, stop, s);
      } else {
        GroupsMatch(sets, i, t, text, r, stop, pm1);
        if OccursNode(i, h) { NodeGroupsMatch(sets, i, h, text, a, r, pm); } else { UntouchedNode(sets, i, h, text, a, r, pm); }
        Further(sets, i, h, t, text, a, r, stop, s);
      }
  }

  /** As above, with group i open since from. */
  lemma {:induction false} OpenGroupsMatch(sets: Sets, i: nat, re: Re, text: Text, a: nat, stop: nat, pm: seq<Span>, from: nat, seg: Re)
    requires from <= a <= stop <= |text| && i < |pm|
    requires Matches(sets, re, text[a..stop]) && Paired(i, re, true)
    requires pm[i].so == from && Matches(sets, seg, text[from..a])
    ensures var s := Dissected(sets, re, text, a, stop, pm)[i];
      Closed(sets, i, re, seg, text, from, a, stop, s) || GroupIn(sets, i, re, text, a, stop, s)
    decreases re, 2
  {
    hide Matches, MatchesNode, Split, GroupIn, Closed, Dissected;
    var h, t := re.head, re.tail;
    SplitExists(sets, h, t, text, a, stop);
    SplitHolds(sets, h, t, text, a, stop, stop);
    var r := Split(sets, h, t, text, a, stop, stop);
    var pm1 := NodeDissected(sets, h, text, a, r, pm);
    DissectedCons(sets, h, t, text, a, stop, pm);
    var s := Dissected(sets, re, text, a, stop, pm)[i];
    if h == Shut(i) {
      GroupsMatch(sets, i, t, text, r, stop, pm1);
      if s == pm1[i] {
        ClosedHere(sets, i, t, seg, text, from, a, stop, s);
      } else {
        Further(sets, i, h, t, text, a, r, stop, s);
      }
    } else {
      UntouchedNode(sets, i, h, text, a, r, pm);
      var seg1 := Append(seg, Cons(h, Nil));
      SegGrows(sets, seg, h, text, from, a, r);
      OpenGroupsMatch(sets, i, t, text, r, stop, pm1, from, seg1);
      if Closed(sets, i, t, seg1, text, from, r, stop, s) {
        ClosedLater(sets, i, h, t, seg, text, from, a, r, stop, s);
      } else {
        Further(sets, i, h, t, text, a, r, stop, s);
      }
    }
  }

  lemma {:induction false} NodeGroupsMatch(sets: Sets, i: nat, n: Node, text: Text, a: nat, r: nat, pm: seq<Span>)
    requires a <= r <= |text| && i < |pm|
    requires MatchesNode(sets, n, text[a..r]) && PairedNode(i, n) && n != Open(i) && n != Shut(i)
    ensures var s := NodeDissected(sets, n, text, a, r, pm)[i]; s == pm[i] || GroupInNode(sets, i, n, text, a, r, s)
    decreases n, 1
  {
    hide Matches, Longest, LastIteration, Dissected, Power;
    match n
    case Maybe(b) =>
      LongestHolds(sets, b, text, a, r);
      if Longest(sets, b, text, a, r) != -1 {
        MaybeMatches(sets, b, text, a, r);
        GroupsMatch(sets, i, b, text, a, r, pm);
      }
    case Loop(b) =>
      FirstIteration(sets, b, text, a, r);
      LastIterationMatches(sets, b, text, a, a, r);
      var last := LastIteration(sets, b, text, a, a, r);
      GroupsMatch(sets, i, b, text, last.0, last.1, pm);
    case Choice(f, o) =>
      LongestHolds(sets, f, text, a, r);
      if Longest(sets, f, text, a, r) == r {
        GroupsMatch(sets, i, f, text, a, r, pm);
      } else {
        AltsGroupsMatch(sets, i, o, text, a, r, pm);
      }
    case _ =>
  }

  lemma {:induction false} AltsGroupsMatch(sets: Sets, i: nat, o: Alts, text: Text, a: nat, r: nat, pm: seq<Span>)
    requires a <= r <= |text| && i < |pm|
    requires MatchesAlts(sets, o, text[a..r]) && PairedAlts(i, o)
    ensures var s := AltsDissected(sets, o, text, a, r, pm)[i]; s == pm[i] || GroupInAlts(sets, i, o, text, a, r, s)
    decreases o, 1
  {
    hide Matches, Longest, Dissected;
    LongestHolds(sets, o.branch, text, a, r);
    if o.Last? || Longest(sets, o.branch, text, a, r) == r {
      GroupsMatch(sets, i, o.branch, text, a, r, pm);
    } else {
      AltsGroupsMatch(sets, i, o.others, text, a, r, pm);
    }
  }

  lemma MaybeMatches(sets: Sets, b: Re, text: Text, a: nat, r: nat)
    requires a <= r <= |text| && MatchesNode(sets, Maybe(b), text[a..r])
    requires Longest(sets, b, text, a, r) != -1
    ensures Matches(sets, b, text[a..r])
  {
    hide Matches;
    LongestHolds(sets, b, text, a, r);
  }

  // The steps of the two inductions above

  lemma DissectedNil(sets: Sets, text: Text, a: nat, stop: nat, pm: seq<Span>)
    requires a <= stop <= |text|
    ensures Dissected(sets, Nil, text, a, stop, pm) == pm
  {
  }

  lemma DissectedCons(sets: Sets, h: Node, t: Re, text: Text, a: nat, stop: nat, pm: seq<Span>)
    requires a <= stop <= |text|
    requires Split(sets, h, t, text, a, stop, stop) != -1
    ensures var r := Split(sets, h, t, text, a, stop, stop);
      Dissected(sets, Cons(h, t), text, a, stop, pm) ==
      Dissected(sets, t, text, r, stop, NodeDissected(sets, h, text, a, r, pm))
  {
    hide Matches, MatchesNode, Split, NodeDissected;
  }

  lemma OpensAt(sets: Sets, i: nat, text: Text, a: nat, r: nat)
    requires a <= r <= |text| && MatchesNode(sets, Open(i), text[a..r])
    ensures r == a && Matches(sets, Nil, text[a..r])
  {
  }

  lemma OpenedHere(sets: Sets, i: nat, t: Re, text: Text, a: nat, r: nat, stop: nat, s: Span)
    requires a == r <= stop <= |text|
    requires Closed(sets, i, t, Nil, text, a, r, stop, s) || GroupIn(sets, i, t, text, r, stop, s)
    ensures GroupIn(sets, i, Cons(Open(i), t), text, a, stop, s)
  {
    hide Matches;
    if Closed(sets, i, t, Nil, text, a, r, stop, s) {
      var c :| Closes(i, t, c) && Matches(sets, Append(Nil, c), text[a..s.eo]);
      assert HasGroup(i, Cons(Open(i), t), c);
    } else {
      var body :| HasGroup(i, t, body) && Matches(sets, body, text[s.so..s.eo]);
      assert HasGroup(i, Cons(Open(i), t), body);
    }
  }

  /** A span found in the head or in the tail is one of the whole. */
  lemma Further(sets: Sets, i: nat, h: Node, t: Re, text: Text, a: nat, r: nat, stop: nat, s: Span)
    requires a <= r <= stop <= |text|
    ensures GroupIn(sets, i, t, text, r, stop, s) ==> GroupIn(sets, i, Cons(h, t), text, a, stop, s)
    ensures GroupInNode(sets, i, h, text, a, r, s) ==> GroupIn(sets, i, Cons(h, t), text, a, stop, s)
  {
    hide Matches;
    if GroupIn(sets, i, t, text, r, stop, s) {
      var body :| HasGroup(i, t, body) && Matches(sets, body, text[s.so..s.eo]);
      assert HasGroup(i, Cons(h, t), body);
    }
    if GroupInNode(sets, i, h, text, a, r, s) {
      var body :| NodeHasGroup(i, h, body) && Matches(sets, body, text[s.so..s.eo]);
      assert HasGroup(i, Cons(h, t), body);
    }
  }

  lemma ClosedHere(sets: Sets, i: nat, t: Re, seg: Re, text: Text, from: nat, a: nat, stop: nat, s: Span)
    requires from <= a <= stop <= |text| && s == Span(from, a) && Matches(sets, seg, text[from..a])
    ensures Closed(sets, i, Cons(Shut(i), t), seg, text, from, a, stop, s)
  {
    hide Matches;
    AppendNil(seg);
    assert Closes(i, Cons(Shut(i), t), Nil);
  }

  lemma SegGrows(sets: Sets, seg: Re, h: Node, text: Text, from: nat, a: nat, r: nat)
    requires from <= a <= r <= |text|
    requires Matches(sets, seg, text[from..a]) && MatchesNode(sets, h, text[a..r])
    ensures Matches(sets, Append(seg, Cons(h, Nil)), text[from..r])
  {
    hide Matches, MatchesNode;
    MatchesOne(sets, h, text[a..r]);
    MatchesAppend(sets, seg, Cons(h, Nil), text[from..a], text[a..r]);
    assert text[from..a] + text[a..r] == text[from..r];
  }

  lemma ClosedLater(sets: Sets, i: nat, h: Node, t: Re, seg: Re, text: Text, from: nat, a: nat, r: nat, stop: nat, s: Span)
    requires from <= a <= r <= stop <= |text| && h != Shut(i) && !OccursNode(i, h)
    requires Closed(sets, i, t, Append(seg, Cons(h, Nil)), text, from, r, stop, s)
    ensures Closed(sets, i, Cons(h, t), seg, text, from, a, stop, s)
  {
    hide Matches;
    var c :| Closes(i, t, c) && Matches(sets, Append(Append(seg, Cons(h, Nil)), c), text[from..s.eo]);
    AppendAssoc(seg, Cons(h, Nil), c);
    assert Append(Cons(h, Nil), c) == Cons(h, c);
    assert Closes(i, Cons(h, t), Cons(h, c));
  }
}
