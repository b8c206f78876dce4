/**
  dissect: walking the strip a second time, over a match already found, to see what matched what.
 */
module Subexpressions {
  import opened Strip
  import opened Language
  import opened Automaton
  import opened Correctness
  import opened States
  import opened Steps
  import opened Engine
  import opened Dissection

  /** The code of re stands at lo, away from both ends of the strip, and names only groups there are. */
  ghost predicate Holds(g: Guts, lo: nat, re: Re) {
    0 < lo && lo + Len(re) < |g.strip| && At(g.strip, lo, re)
  }

  lemma HoldsRegion(g: Guts, lo: nat, re: Re)
    requires Holds(g, lo, re)
    ensures Region(g, lo, lo + Len(re))
  {
    CodeWellFormed(g.strip, lo, re);
  }

  /** slow, over the code of re, finds the longest text of its language. */
  method SlowOver(m: Match, start: nat, stop: nat, lo: nat, hi: nat, ghost re: Re) returns (p: int)
    requires Ready(m) && Holds(m.g, lo, re) && hi == lo + Len(re)
    requires m.beginp <= start <= stop <= m.endp <= |m.text|
    modifies Owned(m)
    ensures Ready(m)
    ensures p == Longest(m.g.sets, re, m.text, start, stop)
  {
    hide Ready, WellFormed, Accepts, LongestMatch, Longest, Holds, Region, Len;
    HoldsRegion(m.g, lo, re);
    p := Slow(m, start, stop, lo, hi);
    LongestOver(m, start, stop, lo, re, p);
  }

  lemma LongestOver(m: Match, start: nat, stop: nat, lo: nat, re: Re, p: int)
    requires Holds(m.g, lo, re) && Region(m.g, lo, lo + Len(re)) && start <= stop <= |m.text|
    requires LongestMatch(m.g, m.text, lo, lo + Len(re), start, stop, p)
    ensures p == Longest(m.g.sets, re, m.text, start, stop)
  {
    hide WellFormed, Accepts, Matches;
    forall k | start <= k <= stop
      ensures Hits(m.g, m.text, lo, lo + Len(re), start, k) <==> Matches(m.g.sets, re, m.text[start..k])
    {
      AcceptsLanguage(m.g.strip, m.g.sets, lo, re, m.text[start..k]);
    }
    LongestIs(m.g.sets, re, m.text, start, stop, p);
  }

  /** Where the operators of the subexpression at ss end. */
  method EndOfSub(strip: seq<Sop>, ss: nat, ghost n: Node) returns (es: nat)
    requires AtNode(strip, ss, n)
    ensures es == ss + NodeLen(n)
  {
    hide At, AtAlts, Len, NodeLen, AltsLen;
    Lengths(n);
    es := ss;
    if strip[es].op == OPLUS_ || strip[es].op == OQUEST_ {
      es := es + strip[es].opnd;
    } else if strip[es].op == OCH_ {
      EndOfAlts(strip, ss + 2 + Len(n.first), n.others);
      ChainOfAlts(strip, ss + 2 + Len(n.first), ss + NodeLen(n), n.others);
      es := es + strip[es].opnd;
      while strip[es].op != O_CH
        invariant es < ss + NodeLen(n) <= |strip| && ChainTo(strip, es, ss + NodeLen(n))
        invariant EndOfChoice(strip, es) == ss + NodeLen(n) - 1
        decreases |strip| - es
      {
        es := es + strip[es].opnd;
      }
    }
    es := es + 1;
  }

  lemma ChainOfAlts(strip: seq<Sop>, lo: nat, hi: nat, a: Alts)
    requires AtAlts(strip, lo, a) && hi == lo + AltsLen(a)
    ensures ChainTo(strip, lo, hi)
  {
    AltsWellFormed(strip, lo, lo, hi, a);
  }

  /** How long could this one be, the rest still matching the rest? */
  method FindSplit(m: Match, sp: nat, stop: nat, ss: nat, es: nat, stopst: nat, ghost h: Node, ghost t: Re) returns (rest: nat)
    requires Ready(m) && Holds(m.g, ss, Cons(h, t)) && es == ss + NodeLen(h) && stopst == es + Len(t)
    requires m.beginp <= sp <= stop <= m.endp <= |m.text| && Matches(m.g.sets, Cons(h, t), m.text[sp..stop])
    modifies Owned(m)
    ensures Ready(m) && sp <= rest <= stop
    ensures rest == Split(m.g.sets, h, t, m.text, sp, stop, stop)
  {
    hide Ready, Holds, Len, NodeLen, Matches, MatchesNode, Split, Longest;
    ghost var sets, text := m.g.sets, m.text;
    OneNodeHolds(m.g, ss, h, t);
    SplitExists(sets, h, t, text, sp, stop);
    ghost var goal := Split(sets, h, t, text, sp, stop, stop);
    var stp := stop;
    while true
      invariant Ready(m) && sp <= goal <= stp <= stop && goal == Split(sets, h, t, text, sp, stp, stop)
      decreases stp
    {
      var r := SlowOver(m, sp, stp, ss, es, Cons(h, Nil));
      SplitBelow(sets, h, t, text, sp, stp, stop);
      rest := r;
      var tail := SlowOver(m, rest, stop, es, stopst, t);
      if tail == stop { break; }
      stp := rest - 1;
    }
  }

  lemma OneNodeHolds(g: Guts, lo: nat, h: Node, t: Re)
    requires Holds(g, lo, Cons(h, t))
    ensures Holds(g, lo, Cons(h, Nil)) && Len(Cons(h, Nil)) == NodeLen(h)
    ensures Holds(g, lo + NodeLen(h), t) && Len(Cons(h, t)) == NodeLen(h) + Len(t)
  {
  }

  /** The longest stretch the node can take by stp: it is the split if the rest fits, and the split is shorter if not. */
  lemma SplitBelow(sets: Sets, h: Node, t: Re, text: Text, sp: nat, stp: nat, stop: nat)
    requires sp <= stp <= stop <= |text| && Split(sets, h, t, text, sp, stp, stop) != -1
    ensures var r := Longest(sets, Cons(h, Nil), text, sp, stp); var goal := Split(sets, h, t, text, sp, stp, stop);
      && sp <= goal <= r && (Longest(sets, t, text, r, stop) == stop ==> goal == r)
      && (Longest(sets, t, text, r, stop) != stop ==> goal <= r - 1 && goal == Split(sets, h, t, text, sp, r - 1, stop))
  {
    hide Matches, MatchesNode, Split, Longest;
    var goal := Split(sets, h, t, text, sp, stp, stop);
    SplitHolds(sets, h, t, text, sp, stp, stop);
    LongestNode(sets, h, text, sp, stp, goal);
    var r := Longest(sets, Cons(h, Nil), text, sp, stp);
    LongestHolds(sets, t, text, r, stop);
    if Longest(sets, t, text, r, stop) != stop { SplitIs(sets, h, t, text, sp, r - 1, stop, goal); }
  }

  lemma SplitIs(sets: Sets, h: Node, t: Re, text: Text, a: nat, stp: nat, stop: nat, goal: nat)
    requires a <= goal <= stp <= stop <= |text|
    requires MatchesNode(sets, h, text[a..goal]) && Matches(sets, t, text[goal..stop])
    requires forall k :: goal < k <= stp ==> !(MatchesNode(sets, h, text[a..k]) && Matches(sets, t, text[k..stop]))
    ensures Split(sets, h, t, text, a, stp, stop) == goal
  {
    hide Matches, MatchesNode, Split;
    SplitHolds(sets, h, t, text, a, stp, stop);
  }

  lemma LongestNode(sets: Sets, h: Node, text: Text, a: nat, b: nat, goal: nat)
    requires a <= goal <= b <= |text| && MatchesNode(sets, h, text[a..goal])
    ensures var r := Longest(sets, Cons(h, Nil), text, a, b);
      && goal <= r && MatchesNode(sets, h, text[a..r])
      && (forall k :: r < k <= b ==> !MatchesNode(sets, h, text[a..k]))
  {
    hide Matches, MatchesNode, Longest;
    LongestHolds(sets, Cons(h, Nil), text, a, b);
    forall k | a <= k <= b
      ensures Matches(sets, Cons(h, Nil), text[a..k]) <==> MatchesNode(sets, h, text[a..k])
    {
      MatchesOne(sets, h, text[a..k]);
    }
  }

  /** Find the last match of the innards. */
  method FindLast(m: Match, sp: nat, rest: nat, ssub: nat, esub: nat, ghost b: Re) returns (ssp: nat, sep: nat)
    requires Ready(m) && Holds(m.g, ssub, b) && esub == ssub + Len(b)
    requires m.beginp <= sp <= rest <= m.endp <= |m.text|
    modifies Owned(m)
    ensures Ready(m)
    ensures (ssp, sep) == LastIteration(m.g.sets, b, m.text, sp, sp, rest)
  {
    hide Ready, Longest;
    ssp := sp;
    var oldssp := ssp;
    while true
      invariant Ready(m) && sp <= oldssp <= ssp <= rest
      invariant LastIteration(m.g.sets, b, m.text, oldssp, ssp, rest) == LastIteration(m.g.sets, b, m.text, sp, sp, rest)
      decreases rest - ssp
    {
      var e := SlowOver(m, ssp, rest, ssub, esub, b);
      if e == -1 {
        sep := ssp;
        ssp := oldssp;
        break;
      }
      sep := e;
      if sep == ssp { break; }
      oldssp := ssp;
      ssp := sep;
    }
  }

  /** Find the first branch that matches all of it. */
  method FindBranch(m: Match, sp: nat, rest: nat, ss: nat, ghost n: Node) returns (ssub: nat, esub: nat, ghost b: Re)
    requires Ready(m) && n.Choice? && Holds(m.g, ss, Cons(n, Nil))
    requires m.beginp <= sp <= rest <= m.endp <= |m.text| && MatchesNode(m.g.sets, n, m.text[sp..rest])
    modifies Owned(m)
    ensures Ready(m)
    ensures Holds(m.g, ssub, b) && esub == ssub + Len(b) && Matches(m.g.sets, b, m.text[sp..rest]) && b < n
    ensures forall pm :: NodeDissected(m.g.sets, n, m.text, sp, rest, pm) == Dissected(m.g.sets, b, m.text, sp, rest, pm)
  {
    hide Ready, Matches, Longest, Dissected, Holds, HoldsAlts, Len;
    ghost var sets, text := m.g.sets, m.text;
    ChoiceHolds(m.g, ss, n);
    ssub := ss + 1;
    esub := ss + m.g.strip[ss].opnd - 1;
    ghost var cur := More(n.first, n.others);
    b := n.first;
    while true
      invariant Ready(m) && AtBranch(m.g, ssub, esub, cur) && b == cur.branch
      invariant MatchesAlts(sets, cur, text[sp..rest])
      invariant cur.branch < n && (cur.More? ==> cur.others < n)
      invariant forall pm :: NodeDissected(sets, n, text, sp, rest, pm) == AltsDissected(sets, cur, text, sp, rest, pm)
      decreases cur
    {
      var whole := SlowOver(m, sp, rest, ssub, esub, b);
      AltsStep(sets, cur, text, sp, rest, whole);
      if whole == rest { break; }
      AltsHolds(m.g, esub + 1, cur.others);
      cur := cur.others;
      b := cur.branch;
      esub := esub + 1;
      ssub := esub + 1;
      esub := esub + m.g.strip[esub].opnd;
      if m.g.strip[esub].op == OOR2 { esub := esub - 1; }
    }
  }

  /** One branch of a choice, between its marks, and the branches after it. */
  ghost predicate AtBranch(g: Guts, ssub: nat, esub: nat, cur: Alts) {
    && Holds(g, ssub, cur.branch) && esub == ssub + Len(cur.branch)
    && (cur.More? ==> HoldsAlts(g, esub + 1, cur.others))
  }

  ghost predicate HoldsAlts(g: Guts, lo: nat, a: Alts) {
    0 < lo && lo + AltsLen(a) < |g.strip| && AtAlts(g.strip, lo, a)
  }

  lemma ChoiceHolds(g: Guts, ss: nat, n: Node)
    requires n.Choice? && Holds(g, ss, Cons(n, Nil))
    ensures ss < |g.strip| && Holds(g, ss + 1, n.first) && g.strip[ss].opnd == Len(n.first) + 2
    ensures HoldsAlts(g, ss + 2 + Len(n.first), n.others)
  {
    hide Len, NodeLen, AltsLen, At, AtAlts;
    AtOne(g.strip, ss, n);
    Lengths(n);
  }

  lemma AtOne(strip: seq<Sop>, lo: nat, n: Node)
    ensures At(strip, lo, Cons(n, Nil)) ==> AtNode(strip, lo, n)
    ensures Len(Cons(n, Nil)) == NodeLen(n)
  {
  }

  lemma AltsHolds(g: Guts, lo: nat, a: Alts)
    requires HoldsAlts(g, lo, a)
    ensures Holds(g, lo + 1, a.branch)
    ensures lo < |g.strip| && lo + g.strip[lo].opnd < |g.strip|
    ensures g.strip[lo] == Sop(OOR2, if a.More? then Len(a.branch) + 2 else Len(a.branch) + 1)
    ensures a.More? ==> g.strip[lo + g.strip[lo].opnd].op == OOR2 && HoldsAlts(g, lo + 2 + Len(a.branch), a.others)
    ensures a.Last? ==> g.strip[lo + g.strip[lo].opnd].op == O_CH
  {
    hide At, Len, AltsLen;
    AltsLengths(a);
    if a.More? { AltsLengths(a.others); AltsMark(g.strip, lo + 2 + Len(a.branch), a.others); }
  }

  lemma AltsMark(strip: seq<Sop>, lo: nat, a: Alts)
    requires AtAlts(strip, lo, a)
    ensures strip[lo].op == OOR2
  {
    hide At, Len, AltsLen;
  }

  lemma AltsStep(sets: Sets, a: Alts, text: Text, sp: nat, rest: nat, whole: int)
    requires sp <= rest <= |text| && MatchesAlts(sets, a, text[sp..rest])
    requires whole == Longest(sets, a.branch, text, sp, rest)
    ensures whole == rest ==> Matches(sets, a.branch, text[sp..rest])
    ensures whole == rest ==>
      forall pm :: AltsDissected(sets, a, text, sp, rest, pm) == Dissected(sets, a.branch, text, sp, rest, pm)
    ensures whole != rest ==> a.More? && MatchesAlts(sets, a.others, text[sp..rest])
    ensures whole != rest ==>
      forall pm :: AltsDissected(sets, a, text, sp, rest, pm) == AltsDissected(sets, a.others, text, sp, rest, pm)
  {
    hide Matches, Longest, Dissected;
    LongestHolds(sets, a.branch, text, sp, rest);
  }

  // The walk

  /** What re says of a match of text[sp..stop] that has left the spans at pm. */
  ghost predicate Walking(m: Match, ss: nat, stopst: nat, re: Re, sp: nat, stop: nat) {
    && m.beginp <= sp <= stop <= m.endp <= |m.text|
    && Holds(m.g, ss, re) && stopst == ss + Len(re)
    && Matches(m.g.sets, re, m.text[sp..stop])
  }

  /** One subexpression, from sp to rest, when what it matched is plain. */
  method DissectNode(m: Match, sp: nat, rest: nat, ss: nat, es: nat, ghost n: Node)
    requires Ready(m) && Holds(m.g, ss, Cons(n, Nil)) && es == ss + NodeLen(n)
    requires m.beginp <= sp <= rest <= m.endp <= |m.text| && MatchesNode(m.g.sets, n, m.text[sp..rest])
    modifies Owned(m), m`pmatch
    ensures Ready(m)
    ensures m.pmatch == NodeDissected(m.g.sets, n, m.text, sp, rest, old(m.pmatch))
    decreases n, 0
  {
    hide Ready, Holds, Matches, Longest, LastIteration, Dissected, AltsDissected, NodeLen, Len, MatchesAlts, Power;
    InnardsHold(m.g, ss, n);
    var s := m.g.strip[ss];
    if s.op == OQUEST_ {
      var inner := SlowOver(m, sp, rest, ss + 1, es - 1, n.body);
      if inner != -1 {
        MaybeMatches(m.g.sets, n.body, m.text, sp, rest);
        var dp := Dissect(m, sp, rest, ss + 1, es - 1, n.body);
      }
    } else if s.op == OPLUS_ {
      var ssp, sep := FindLast(m, sp, rest, ss + 1, es - 1, n.body);
      FirstIteration(m.g.sets, n.body, m.text, sp, rest);
      LastIterationMatches(m.g.sets, n.body, m.text, sp, sp, rest);
      var dp := Dissect(m, ssp, sep, ss + 1, es - 1, n.body);
    } else if s.op == OCH_ {
      ghost var b;
      var ssub, esub;
      ssub, esub, b := FindBranch(m, sp, rest, ss, n);
      var dp := Dissect(m, sp, rest, ssub, esub, b);
    } else if s.op == OLPAREN {
      m.pmatch := SetSo(m.pmatch, s.opnd, sp);
    } else if s.op == ORPAREN {
      m.pmatch := SetEo(m.pmatch, s.opnd, sp);
    }
  }

  lemma InnardsHold(g: Guts, ss: nat, n: Node)
    requires Holds(g, ss, Cons(n, Nil))
    ensures ss < |g.strip|
    ensures n.Loop? || n.Maybe? ==> Holds(g, ss + 1, n.body) && NodeLen(n) == Len(n.body) + 2
    ensures match n
      case Open(i) => g.strip[ss] == Sop(OLPAREN, i)
      case Shut(i) => g.strip[ss] == Sop(ORPAREN, i)
      case Maybe(_) => g.strip[ss].op == OQUEST_
      case Loop(_) => g.strip[ss].op == OPLUS_
      case Choice(_, _) => g.strip[ss].op == OCH_
      case Lit(_) => g.strip[ss].op == OCHAR
      case Dot => g.strip[ss].op == OANY
      case Set(_) => g.strip[ss].op == OANYOF
  {
    hide Len, NodeLen, At, AtAlts;
    AtOne(g.strip, ss, n);
    Lengths(n);
  }

  /** What a subexpression of one operator has matched. */
  lemma PlainSplit(sets: Sets, h: Node, t: Re, text: Text, sp: nat, stop: nat)
    requires sp <= stop <= |text| && Matches(sets, Cons(h, t), text[sp..stop])
    requires !h.Loop? && !h.Maybe? && !h.Choice?
    ensures Split(sets, h, t, text, sp, stop, stop) == if h.Open? || h.Shut? then sp else sp + 1
  {
    hide Matches, Split;
    SplitExists(sets, h, t, text, sp, stop);
    SplitHolds(sets, h, t, text, sp, stop, stop);
  }

  /**
    Figure out what matched what.  Always succeeds, and always by the rule: the spans it writes are
    those of Dissected.
   */
  method Dissect(m: Match, start: nat, stop: nat, startst: nat, stopst: nat, ghost re: Re) returns (sp: nat)
    requires Ready(m) && start <= stop <= |m.text| && Walking(m, startst, stopst, re, start, stop)
    modifies Owned(m), m`pmatch
    ensures Ready(m) && sp == stop
    ensures m.pmatch == Dissected(m.g.sets, re, m.text, start, stop, old(m.pmatch))
    decreases re, 1
  {
    hide Ready, Matches, MatchesNode, Split, Dissected, NodeDissected, Holds, Len, NodeLen, Walking;
    sp := start;
    var ss: nat := startst;
    ghost var left := re;
    while ss < stopst
      invariant Ready(m) && sp <= stop && Walking(m, ss, stopst, left, sp, stop)
      invariant left == re || left < re
      invariant Dissected(m.g.sets, left, m.text, sp, stop, m.pmatch) == Dissected(m.g.sets, re, m.text, start, stop, old(m.pmatch))
      decreases left
    {
      WalkNode(m, ss, stopst, left, sp, stop);
      ghost var h, t := left.head, left.tail;
      var es := EndOfSub(m.g.strip, ss, h);
      var op := m.g.strip[ss].op;
      var rest := sp;
      if op == OCHAR || op == OANY || op == OANYOF {
        rest := sp + 1;
      } else if op == OQUEST_ || op == OPLUS_ || op == OCH_ {
        rest := FindSplit(m, sp, stop, ss, es, stopst, h, t);
      }
      DissectedCons(m.g.sets, h, t, m.text, sp, stop, m.pmatch);
      DissectNode(m, sp, rest, ss, es, h);
      sp := rest;
      ss := es;
      left := t;
    }
    WalkDone(m, ss, stopst, left, sp, stop);
    DissectedNil(m.g.sets, m.text, sp, stop, m.pmatch);
  }

  /** At the next subexpression: where it stands, what it matches, and how the rest goes on. */
  lemma WalkNode(m: Match, ss: nat, stopst: nat, re: Re, sp: nat, stop: nat)
    requires Walking(m, ss, stopst, re, sp, stop) && ss < stopst
    ensures re.Cons? && ss < |m.g.strip| && AtNode(m.g.strip, ss, re.head)
    ensures Holds(m.g, ss, Cons(re.head, Nil)) && Holds(m.g, ss, re)
    ensures stopst == ss + NodeLen(re.head) + Len(re.tail)
    ensures m.beginp <= sp <= stop <= m.endp <= |m.text| && Matches(m.g.sets, re, m.text[sp..stop])
    ensures var r := Split(m.g.sets, re.head, re.tail, m.text, sp, stop, stop); var op := m.g.strip[ss].op;
      && sp <= r <= stop && MatchesNode(m.g.sets, re.head, m.text[sp..r])
      && Walking(m, ss + NodeLen(re.head), stopst, re.tail, r, stop)
      && (op in {OCHAR, OANY, OANYOF} ==> r == sp + 1)
      && (op in {OLPAREN, ORPAREN} ==> r == sp)
      && op in {OCHAR, OANY, OANYOF, OLPAREN, ORPAREN, OQUEST_, OPLUS_, OCH_}
  {
    hide Matches, MatchesNode, Split, At, Len, WellFormed;
    ConsAt(m.g.strip, ss, Dot, Nil);
    ConsAt(m.g.strip, ss, re.head, re.tail);
    var h, t := re.head, re.tail;
    OneNodeHolds(m.g, ss, h, t);
    InnardsHold(m.g, ss, h);
    SplitExists(m.g.sets, h, t, m.text, sp, stop);
    SplitHolds(m.g.sets, h, t, m.text, sp, stop, stop);
    if !h.Loop? && !h.Maybe? && !h.Choice? { PlainSplit(m.g.sets, h, t, m.text, sp, stop); }
  }

  lemma WalkDone(m: Match, ss: nat, stopst: nat, re: Re, sp: nat, stop: nat)
    requires Walking(m, ss, stopst, re, sp, stop) && ss >= stopst
    ensures re == Nil && sp == stop <= |m.text|
  {
    MatchesNil(m.g.sets, m.text[sp..stop]);
  }
}
