/**
  The code of a regular expression accepts exactly its language.

  Completeness follows the expression: a text of the language carries the automaton from the start of
  the code to its end.  Soundness gives every state inside the code its own language, the texts that
  can lead there, and shows that no move leaves these languages.
 */
module Correctness {
  import opened Strip
  import opened Language
  import opened Automaton

  // Completeness

  lemma {:induction false} Forward(strip: seq<Sop>, sets: Sets, lo: nat, hi: nat, at: nat, re: Re, u: Text, w: Text)
    requires hi <= |strip| && WellFormed(strip, lo, hi)
    requires lo <= at && at + Len(re) <= hi && At(strip, at, re)
    requires at in Run(strip, sets, lo, hi, u) && Matches(sets, re, w)
    ensures at + Len(re) in Run(strip, sets, lo, hi, u + w)
    decreases re, 2
  {
    hide Run, WellFormed, Matches, MatchesNode, At, AtNode, NodeLen, Len;
    match re
    case Nil =>
      MatchesNil(sets, w);
      ConsAt(strip, at, Dot, Nil);
      assert u + w == u;
    case Cons(h, t) =>
      var i := MatchesUncons(sets, h, t, w);
      ConsAt(strip, at, h, t);
      ForwardNode(strip, sets, lo, hi, at, h, u, w[..i]);
      Forward(strip, sets, lo, hi, at + NodeLen(h), t, u + w[..i], w[i..]);
      assert u + w[..i] + w[i..] == u + w;
  }

  lemma {:induction false} ForwardNode(strip: seq<Sop>, sets: Sets, lo: nat, hi: nat, at: nat, n: Node, u: Text, w: Text)
    requires hi <= |strip| && WellFormed(strip, lo, hi)
    requires lo <= at && at + NodeLen(n) <= hi && AtNode(strip, at, n)
    requires at in Run(strip, sets, lo, hi, u) && MatchesNode(sets, n, w)
    ensures at + NodeLen(n) in Run(strip, sets, lo, hi, u + w)
    decreases n, 2
  {
    hide Run, WellFormed, At, Matches, Len, NodeLen;
    Lengths(n);
    match n
    case Open(_) => assert u + w == u; RunEmpty(strip, sets, lo, hi, u, at, at + 1);
    case Shut(_) => assert u + w == u; RunEmpty(strip, sets, lo, hi, u, at, at + 1);
    case Loop(b) =>
      var k: nat :| k >= 1 && Power(sets, b, k, w);
      ForwardPower(strip, sets, lo, hi, at, n, k, u, w);
      RunEmpty(strip, sets, lo, hi, u + w, at + 1 + Len(b), at + NodeLen(n));
    case Maybe(b) => ForwardMaybe(strip, sets, lo, hi, at, n, u, w);
    case Choice(f, o) => ForwardChoice(strip, sets, lo, hi, at, n, u, w);
    case _ => assert w == [w[0]]; RunChar(strip, sets, lo, hi, u, at, w[0]);
  }

  lemma {:induction false} ForwardMaybe(strip: seq<Sop>, sets: Sets, lo: nat, hi: nat, at: nat, n: Node, u: Text, w: Text)
    requires hi <= |strip| && WellFormed(strip, lo, hi)
    requires n.Maybe? && lo <= at && at + NodeLen(n) <= hi && AtNode(strip, at, n)
    requires at in Run(strip, sets, lo, hi, u) && MatchesNode(sets, n, w)
    ensures at + NodeLen(n) - 1 in Run(strip, sets, lo, hi, u + w)
    ensures at + NodeLen(n) in Run(strip, sets, lo, hi, u + w)
    decreases n, 1
  {
    hide Run, WellFormed, At, Matches, Len, NodeLen;
    Lengths(n);
    var end := at + 1 + Len(n.body);
    if w == [] {
      assert u + w == u;
      RunEmpty(strip, sets, lo, hi, u, at, end);
    } else {
      RunEmpty(strip, sets, lo, hi, u, at, at + 1);
      Forward(strip, sets, lo, hi, at + 1, n.body, u, w);
    }
    RunEmpty(strip, sets, lo, hi, u + w, end, at + NodeLen(n));
  }

  lemma {:induction false} ForwardPower(strip: seq<Sop>, sets: Sets, lo: nat, hi: nat, at: nat, n: Node, k: nat, u: Text, w: Text)
    requires hi <= |strip| && WellFormed(strip, lo, hi)
    requires n.Loop? && lo <= at && at + NodeLen(n) <= hi && AtNode(strip, at, n)
    requires at in Run(strip, sets, lo, hi, u) && k >= 1 && Power(sets, n.body, k, w)
    ensures at + 1 + Len(n.body) in Run(strip, sets, lo, hi, u + w)
    decreases n, 1, k
  {
    hide Run, WellFormed, At, Matches, Len, NodeLen;
    Lengths(n);
    var i :| 0 <= i <= |w| && Power(sets, n.body, k - 1, w[..i]) && Matches(sets, n.body, w[i..]);
    var v := u + w[..i];
    if k == 1 {
      assert v == u;
    } else {
      ForwardPower(strip, sets, lo, hi, at, n, k - 1, u, w[..i]);
      RunEmpty(strip, sets, lo, hi, v, at + 1 + Len(n.body), at);
    }
    RunEmpty(strip, sets, lo, hi, v, at, at + 1);
    Forward(strip, sets, lo, hi, at + 1, n.body, v, w[i..]);
    assert v + w[i..] == u + w;
  }

  lemma {:induction false} ForwardChoice(strip: seq<Sop>, sets: Sets, lo: nat, hi: nat, at: nat, n: Node, u: Text, w: Text)
    requires hi <= |strip| && WellFormed(strip, lo, hi)
    requires n.Choice? && lo <= at && at + NodeLen(n) <= hi && AtNode(strip, at, n)
    requires at in Run(strip, sets, lo, hi, u) && MatchesNode(sets, n, w)
    ensures at + NodeLen(n) - 1 in Run(strip, sets, lo, hi, u + w)
    ensures at + NodeLen(n) in Run(strip, sets, lo, hi, u + w)
    decreases n, 1
  {
    hide Run, WellFormed, At, AtAlts, Matches, MatchesAlts, Len, NodeLen;
    Lengths(n);
    var or1 := at + 1 + Len(n.first);
    var end := at + NodeLen(n) - 1;
    EndOfAlts(strip, or1 + 1, n.others);
    if Matches(sets, n.first, w) {
      RunEmpty(strip, sets, lo, hi, u, at, at + 1);
      Forward(strip, sets, lo, hi, at + 1, n.first, u, w);
      RunEmpty(strip, sets, lo, hi, u + w, or1, end);
    } else {
      RunEmpty(strip, sets, lo, hi, u, at, or1 + 1);
      ForwardAlts(strip, sets, lo, hi, or1 + 1, n.others, u, w);
    }
    RunEmpty(strip, sets, lo, hi, u + w, end, end + 1);
  }

  lemma {:induction false} ForwardAlts(strip: seq<Sop>, sets: Sets, lo: nat, hi: nat, at: nat, a: Alts, u: Text, w: Text)
    requires hi <= |strip| && WellFormed(strip, lo, hi)
    requires lo <= at && at + AltsLen(a) <= hi && AtAlts(strip, at, a)
    requires at in Run(strip, sets, lo, hi, u) && MatchesAlts(sets, a, w)
    ensures at + AltsLen(a) - 1 in Run(strip, sets, lo, hi, u + w)
    decreases a, 1
  {
    hide Run, WellFormed, At, Matches, Len, NodeLen, AltsLen, EndOfChoice;
    AltsLengths(a);
    var end := at + 1 + Len(a.branch);
    if Matches(sets, a.branch, w) {
      RunEmpty(strip, sets, lo, hi, u, at, at + 1);
      Forward(strip, sets, lo, hi, at + 1, a.branch, u, w);
      if a.More? {
        EndOfAlts(strip, end + 1, a.others);
        RunEmpty(strip, sets, lo, hi, u + w, end, at + AltsLen(a) - 1);
      }
    } else {
      RunEmpty(strip, sets, lo, hi, u, at, end + 1);
      ForwardAlts(strip, sets, lo, hi, end + 1, a.others, u, w);
    }
  }

  // Soundness

  /** The texts that can lead from the start of the code of re to its k-th state. */
  ghost predicate Leads(sets: Sets, re: Re, k: nat, w: Text)
    requires k <= Len(re)
    decreases re
  {
    match re
    case Nil => w == []
    case Cons(h, t) =>
      if k < NodeLen(h) then LeadsNode(sets, h, k, w)
      else exists i :: 0 <= i <= |w| && MatchesNode(sets, h, w[..i]) && Leads(sets, t, k - NodeLen(h), w[i..])
  }

  ghost predicate LeadsNode(sets: Sets, n: Node, k: nat, w: Text)
    requires k < NodeLen(n)
    decreases n
  {
    match n
    case Loop(b) =>
      if k == 0 then exists j: nat :: Power(sets, b, j, w)
      else exists i, j: nat :: 0 <= i <= |w| && Power(sets, b, j, w[..i]) && Leads(sets, b, k - 1, w[i..])
    case Maybe(b) =>
      if k == 0 then w == []
      else if k <= Len(b) then Leads(sets, b, k - 1, w)
      else w == [] || Matches(sets, b, w)
    case Choice(f, o) =>
      if k == 0 then w == []
      else if k <= Len(f) + 1 then Leads(sets, f, k - 1, w)
      else if k < NodeLen(n) - 1 then LeadsAlts(sets, o, k - Len(f) - 2, w)
      else MatchesNode(sets, n, w)
    case _ => w == []
  }

  ghost predicate LeadsAlts(sets: Sets, a: Alts, k: nat, w: Text)
    requires k < AltsLen(a) - 1
    decreases a
  {
    if k == 0 then w == []
    else if k <= Len(a.branch) + 1 then Leads(sets, a.branch, k - 1, w)
    else LeadsAlts(sets, a.others, k - Len(a.branch) - 2, w)
  }

  lemma {:induction false} LeadsStart(sets: Sets, re: Re)
    ensures Leads(sets, re, 0, [])
  {
    match re
    case Nil =>
    case Cons(h, _) =>
      match h
      case Loop(b) => assert Power(sets, b, 0, []);
      case _ =>
  }

  lemma {:induction false} LeadsEnd(sets: Sets, re: Re, w: Text)
    ensures Leads(sets, re, Len(re), w) <==> Matches(sets, re, w)
    decreases re
  {
    match re
    case Nil =>
    case Cons(h, t) =>
      forall i | 0 <= i <= |w|
        ensures Leads(sets, t, Len(t), w[i..]) <==> Matches(sets, t, w[i..])
      {
        LeadsEnd(sets, t, w[i..]);
      }
  }

  /** Where a move from inside the code of a node may end up: inside it still, or at its end. */
  ghost predicate LeadsWithin(sets: Sets, lo: nat, n: Node, q: int, w: Text) {
    && lo <= q <= lo + NodeLen(n)
    && (if q - lo < NodeLen(n) then LeadsNode(sets, n, q - lo, w) else MatchesNode(sets, n, w))
  }

  lemma {:induction false} EmptyMove(strip: seq<Sop>, sets: Sets, lo: nat, re: Re, pc: nat, q: int, w: Text)
    requires At(strip, lo, re) && lo <= pc < lo + Len(re) <= |strip|
    requires q in Empties(strip, pc) && Leads(sets, re, pc - lo, w)
    ensures lo <= q <= lo + Len(re) && Leads(sets, re, q - lo, w)
    decreases re, 2
  {
    hide AtNode, NodeLen, MatchesNode, LeadsNode, EndOfChoice, Empties;
    var h, t := re.head, re.tail;
    if pc - lo < NodeLen(h) {
      EmptyMoveNode(strip, sets, lo, h, pc, q, w);
      if q - lo == NodeLen(h) { LeadsPast(sets, h, t, w); }
    } else {
      var mid := lo + NodeLen(h);
      var i :| 0 <= i <= |w| && MatchesNode(sets, h, w[..i]) && Leads(sets, t, pc - mid, w[i..]);
      EmptyMove(strip, sets, mid, t, pc, q, w[i..]);
      assert Leads(sets, t, (q - lo) - NodeLen(h), w[i..]);
    }
  }

  lemma LeadsPast(sets: Sets, h: Node, t: Re, w: Text)
    requires MatchesNode(sets, h, w)
    ensures Leads(sets, Cons(h, t), NodeLen(h), w)
  {
    LeadsStart(sets, t);
    assert w[..|w|] == w && w[|w|..] == [];
  }

  lemma {:induction false} EmptyMoveNode(strip: seq<Sop>, sets: Sets, lo: nat, n: Node, pc: nat, q: int, w: Text)
    requires AtNode(strip, lo, n) && lo <= pc < lo + NodeLen(n) <= |strip|
    requires q in Empties(strip, pc) && LeadsNode(sets, n, pc - lo, w)
    ensures LeadsWithin(sets, lo, n, q, w)
    decreases n, 2
  {
    hide Len, NodeLen, At, Matches, MatchesAlts, AtAlts, EndOfChoice, Leads, LeadsAlts;
    Lengths(n);
    match n
    case Loop(b) => EmptyMoveLoop(strip, sets, lo, n, pc, q, w);
    case Maybe(b) =>
      if pc == lo {
        LeadsStart(sets, b);
        LeadsEnd(sets, b, w);
      } else if pc <= lo + Len(b) {
        EmptyMove(strip, sets, lo + 1, b, pc, q, w);
        LeadsEnd(sets, b, w);
      }
    case Choice(f, o) => EmptyMoveChoice(strip, sets, lo, n, pc, q, w);
    case _ =>
  }

  lemma {:induction false} EmptyMoveLoop(strip: seq<Sop>, sets: Sets, lo: nat, n: Node, pc: nat, q: int, w: Text)
    requires n.Loop? && AtNode(strip, lo, n) && lo <= pc < lo + NodeLen(n) <= |strip|
    requires q in Empties(strip, pc) && LeadsNode(sets, n, pc - lo, w)
    ensures LeadsWithin(sets, lo, n, q, w)
    decreases n, 1
  {
    hide Len, NodeLen, At, Matches, EndOfChoice, Leads;
    Lengths(n);
    var b := n.body;
    if pc == lo {
      LeadsStart(sets, b);
      assert w[..|w|] == w && w[|w|..] == [];
    } else {
      var i, j: nat :| 0 <= i <= |w| && Power(sets, b, j, w[..i]) && Leads(sets, b, pc - lo - 1, w[i..]);
      if pc <= lo + Len(b) {
        EmptyMove(strip, sets, lo + 1, b, pc, q, w[i..]);
        assert Leads(sets, b, (q - lo) - 1, w[i..]);
      } else {
        LeadsEnd(sets, b, w[i..]);
        PowerSnoc(sets, b, j, w[..i], w[i..]);
        assert w[..i] + w[i..] == w;
      }
    }
  }

  lemma {:induction false} EmptyMoveChoice(strip: seq<Sop>, sets: Sets, lo: nat, n: Node, pc: nat, q: int, w: Text)
    requires n.Choice? && AtNode(strip, lo, n) && lo <= pc < lo + NodeLen(n) <= |strip|
    requires q in Empties(strip, pc) && LeadsNode(sets, n, pc - lo, w)
    ensures LeadsWithin(sets, lo, n, q, w)
    decreases n, 1
  {
    hide Len, NodeLen, At, AtAlts, Matches, MatchesAlts, EndOfChoice, Leads;
    Lengths(n);
    var f, o := n.first, n.others;
    var or1 := lo + 1 + Len(f);
    var hi := lo + NodeLen(n);
    EndOfAlts(strip, or1 + 1, o);
    if pc == lo {
      LeadsStart(sets, f);
      assert LeadsAlts(sets, o, 0, []);
    } else if pc < or1 {
      EmptyMove(strip, sets, lo + 1, f, pc, q, w);
    } else if pc == or1 {
      LeadsEnd(sets, f, w);
    } else if pc < hi - 1 {
      EmptyMoveAlts(strip, sets, or1 + 1, o, pc, q, w);
    }
  }

  lemma {:induction false} EmptyMoveAlts(strip: seq<Sop>, sets: Sets, lo: nat, a: Alts, pc: nat, q: int, w: Text)
    requires AtAlts(strip, lo, a) && lo <= pc < lo + AltsLen(a) - 1 < |strip|
    requires q in Empties(strip, pc) && LeadsAlts(sets, a, pc - lo, w)
    ensures lo <= q < lo + AltsLen(a)
    ensures if q < lo + AltsLen(a) - 1 then LeadsAlts(sets, a, q - lo, w) else MatchesAlts(sets, a, w)
    decreases a, 1
  {
    hide Len, NodeLen, AltsLen, At, Matches, EndOfChoice, Leads;
    AltsLengths(a);
    var b := a.branch;
    var end := lo + 1 + Len(b);
    if pc == lo {
      LeadsStart(sets, b);
      LeadsEnd(sets, b, w);
    } else if pc < end {
      EmptyMove(strip, sets, lo + 1, b, pc, q, w);
      LeadsEnd(sets, b, w);
    } else {
      EndOfAlts(strip, end + 1, a.others);
      if pc == end {
        LeadsEnd(sets, b, w);
      } else {
        EmptyMoveAlts(strip, sets, end + 1, a.others, pc, q, w);
      }
    }
  }

  lemma {:induction false} CharMove(strip: seq<Sop>, sets: Sets, lo: nat, re: Re, pc: nat, c: Ch, w: Text)
    requires At(strip, lo, re) && lo <= pc < lo + Len(re) <= |strip|
    requires Fires(sets, strip[pc], c) && Leads(sets, re, pc - lo, w)
    ensures Leads(sets, re, pc + 1 - lo, w + [c])
    decreases re, 2
  {
    hide AtNode, NodeLen, MatchesNode, LeadsNode, Fires;
    var h, t := re.head, re.tail;
    if pc - lo < NodeLen(h) {
      CharMoveNode(strip, sets, lo, h, pc, c, w);
      if pc + 1 - lo == NodeLen(h) { LeadsPast(sets, h, t, w + [c]); }
    } else {
      var mid := lo + NodeLen(h);
      var i :| 0 <= i <= |w| && MatchesNode(sets, h, w[..i]) && Leads(sets, t, pc - mid, w[i..]);
      CharMove(strip, sets, mid, t, pc, c, w[i..]);
      assert (w + [c])[..i] == w[..i] && (w + [c])[i..] == w[i..] + [c];
      assert Leads(sets, t, (pc + 1 - lo) - NodeLen(h), (w + [c])[i..]);
    }
  }

  lemma {:induction false} CharMoveNode(strip: seq<Sop>, sets: Sets, lo: nat, n: Node, pc: nat, c: Ch, w: Text)
    requires AtNode(strip, lo, n) && lo <= pc < lo + NodeLen(n) <= |strip|
    requires Fires(sets, strip[pc], c) && LeadsNode(sets, n, pc - lo, w)
    ensures LeadsWithin(sets, lo, n, pc + 1, w + [c])
    decreases n, 2
  {
    hide At, AtAlts, Matches, MatchesAlts, Len, NodeLen;
    Lengths(n);
    match n
    case Loop(b) => CharMoveLoop(strip, sets, lo, n, pc, c, w);
    case Maybe(b) =>
      CharMove(strip, sets, lo + 1, b, pc, c, w);
      LeadsEnd(sets, b, w + [c]);
    case Choice(f, o) => CharMoveChoice(strip, sets, lo, n, pc, c, w);
    case Lit(_) => assert w + [c] == [c];
    case Dot => assert w + [c] == [c];
    case Set(_) => assert w + [c] == [c];
    case _ =>
  }

  lemma {:induction false} CharMoveLoop(strip: seq<Sop>, sets: Sets, lo: nat, n: Node, pc: nat, c: Ch, w: Text)
    requires n.Loop? && AtNode(strip, lo, n) && lo <= pc < lo + NodeLen(n) <= |strip|
    requires Fires(sets, strip[pc], c) && LeadsNode(sets, n, pc - lo, w)
    ensures LeadsWithin(sets, lo, n, pc + 1, w + [c])
    decreases n, 1
  {
    hide At, Matches, Leads, Len, NodeLen;
    Lengths(n);
    var i, j: nat :| 0 <= i <= |w| && Power(sets, n.body, j, w[..i]) && Leads(sets, n.body, pc - lo - 1, w[i..]);
    CharMove(strip, sets, lo + 1, n.body, pc, c, w[i..]);
    assert (w + [c])[..i] == w[..i] && (w + [c])[i..] == w[i..] + [c];
    assert Leads(sets, n.body, (pc + 1 - lo) - 1, (w + [c])[i..]);
  }

  lemma {:induction false} CharMoveChoice(strip: seq<Sop>, sets: Sets, lo: nat, n: Node, pc: nat, c: Ch, w: Text)
    requires n.Choice? && AtNode(strip, lo, n) && lo <= pc < lo + NodeLen(n) <= |strip|
    requires Fires(sets, strip[pc], c) && LeadsNode(sets, n, pc - lo, w)
    ensures LeadsWithin(sets, lo, n, pc + 1, w + [c])
    decreases n, 1
  {
    hide At, AtAlts, Leads, LeadsAlts, Matches, MatchesAlts, Len, NodeLen;
    Lengths(n);
    var or1 := lo + 1 + Len(n.first);
    EndOfAlts(strip, or1 + 1, n.others);
    if pc < or1 {
      CharMove(strip, sets, lo + 1, n.first, pc, c, w);
    } else {
      CharMoveAlts(strip, sets, or1 + 1, n.others, pc, c, w);
    }
  }

  lemma {:induction false} CharMoveAlts(strip: seq<Sop>, sets: Sets, lo: nat, a: Alts, pc: nat, c: Ch, w: Text)
    requires AtAlts(strip, lo, a) && lo <= pc < lo + AltsLen(a) - 1 < |strip|
    requires Fires(sets, strip[pc], c) && LeadsAlts(sets, a, pc - lo, w)
    ensures if pc + 1 < lo + AltsLen(a) - 1 then LeadsAlts(sets, a, pc + 1 - lo, w + [c]) else MatchesAlts(sets, a, w + [c])
    decreases a, 1
  {
    hide Len, NodeLen, AltsLen, At, Matches, EndOfChoice, Leads;
    AltsLengths(a);
    var b := a.branch;
    var end := lo + 1 + Len(b);
    if pc < end {
      CharMove(strip, sets, lo + 1, b, pc, c, w);
      LeadsEnd(sets, b, w + [c]);
    } else {
      CharMoveAlts(strip, sets, end + 1, a.others, pc, c, w);
    }
  }

  ghost predicate LeadsTo(sets: Sets, lo: nat, re: Re, q: int, w: Text) {
    lo <= q <= lo + Len(re) && Leads(sets, re, q - lo, w)
  }

  /** The states w leads to. */
  ghost function Led(sets: Sets, lo: nat, re: Re, w: Text): set<int> {
    set q | q in States(lo, lo + Len(re)) && LeadsTo(sets, lo, re, q, w)
  }

  lemma LedClosed(strip: seq<Sop>, sets: Sets, lo: nat, re: Re, w: Text)
    requires At(strip, lo, re) && lo + Len(re) <= |strip|
    ensures Closed(strip, lo, lo + Len(re), Led(sets, lo, re, w))
  {
    hide Len, At, Leads, Empties;
    var good := Led(sets, lo, re, w);
    forall pc, q | lo <= pc < lo + Len(re) && pc in good && q in Empties(strip, pc)
      ensures q in good
    {
      EmptyMove(strip, sets, lo, re, pc, q, w);
    }
  }

  lemma LedAfter(strip: seq<Sop>, sets: Sets, lo: nat, re: Re, w: Text, c: Ch, before: set<int>)
    requires At(strip, lo, re) && lo + Len(re) <= |strip|
    requires before <= Led(sets, lo, re, w)
    ensures After(strip, sets, lo, lo + Len(re), before, c) <= Led(sets, lo, re, w + [c])
  {
    hide Len, At, Leads, Fires;
    forall pc | pc in before && lo <= pc < lo + Len(re) && Fires(sets, strip[pc], c)
      ensures pc + 1 in Led(sets, lo, re, w + [c])
    {
      CharMove(strip, sets, lo, re, pc, c, w);
    }
  }

  // Every state a text leads to is reached

  lemma {:induction false} Arrive(strip: seq<Sop>, sets: Sets, lo: nat, hi: nat, at: nat, re: Re, k: nat, u: Text, w: Text)
    requires hi <= |strip| && WellFormed(strip, lo, hi)
    requires lo <= at && at + Len(re) <= hi && At(strip, at, re)
    requires at in Run(strip, sets, lo, hi, u) && k <= Len(re) && Leads(sets, re, k, w)
    ensures at + k in Run(strip, sets, lo, hi, u + w)
    decreases re, 2
  {
    hide Run, WellFormed, MatchesNode, Leads, LeadsNode, At, AtNode, NodeLen, Len;
    match re
    case Nil =>
      LeadsNowhere(sets, k, w);
      assert u + w == u;
    case Cons(h, t) =>
      ConsAt(strip, at, h, t);
      if k < NodeLen(h) {
        LeadsInto(sets, h, t, k, w);
        ArriveNode(strip, sets, lo, hi, at, h, k, u, w);
      } else {
        var i := LeadsBeyond(sets, h, t, k, w);
        ForwardNode(strip, sets, lo, hi, at, h, u, w[..i]);
        Arrive(strip, sets, lo, hi, at + NodeLen(h), t, k - NodeLen(h), u + w[..i], w[i..]);
        assert u + w[..i] + w[i..] == u + w;
      }
  }

  lemma LeadsNowhere(sets: Sets, k: nat, w: Text)
    requires k <= Len(Nil) && Leads(sets, Nil, k, w)
    ensures k == 0 && w == []
  {
  }

  lemma LeadsInto(sets: Sets, h: Node, t: Re, k: nat, w: Text)
    requires k < NodeLen(h) && k <= Len(Cons(h, t)) && Leads(sets, Cons(h, t), k, w)
    ensures LeadsNode(sets, h, k, w)
  {
    hide NodeLen, LeadsNode, MatchesNode;
  }

  lemma LeadsBeyond(sets: Sets, h: Node, t: Re, k: nat, w: Text) returns (i: nat)
    requires NodeLen(h) <= k <= Len(Cons(h, t)) && Leads(sets, Cons(h, t), k, w)
    ensures k - NodeLen(h) <= Len(t)
    ensures i <= |w| && MatchesNode(sets, h, w[..i]) && Leads(sets, t, k - NodeLen(h), w[i..])
  {
    hide NodeLen, LeadsNode, MatchesNode;
    i :| 0 <= i <= |w| && MatchesNode(sets, h, w[..i]) && Leads(sets, t, k - NodeLen(h), w[i..]);
  }

  lemma {:induction false} ArriveNode(strip: seq<Sop>, sets: Sets, lo: nat, hi: nat, at: nat, n: Node, k: nat, u: Text, w: Text)
    requires hi <= |strip| && WellFormed(strip, lo, hi)
    requires lo <= at && at + NodeLen(n) <= hi && AtNode(strip, at, n)
    requires at in Run(strip, sets, lo, hi, u) && k < NodeLen(n) && LeadsNode(sets, n, k, w)
    ensures at + k in Run(strip, sets, lo, hi, u + w)
    decreases n, 2
  {
    hide Run, WellFormed, At, AtAlts, Matches, MatchesAlts, Leads, LeadsAlts, Len, NodeLen;
    Lengths(n);
    match n
    case Loop(b) => ArriveLoop(strip, sets, lo, hi, at, n, k, u, w);
    case Maybe(b) =>
      if 0 < k <= Len(b) {
        RunEmpty(strip, sets, lo, hi, u, at, at + 1);
        Arrive(strip, sets, lo, hi, at + 1, b, k - 1, u, w);
      } else if k > 0 {
        ForwardMaybe(strip, sets, lo, hi, at, n, u, w);
      } else {
        assert u + w == u;
      }
    case Choice(f, o) =>
      if k == 0 {
        assert u + w == u;
      } else if k <= Len(f) + 1 {
        RunEmpty(strip, sets, lo, hi, u, at, at + 1);
        Arrive(strip, sets, lo, hi, at + 1, f, k - 1, u, w);
      } else if k < NodeLen(n) - 1 {
        RunEmpty(strip, sets, lo, hi, u, at, at + 2 + Len(f));
        ArriveAlts(strip, sets, lo, hi, at + 2 + Len(f), o, k - Len(f) - 2, u, w);
      } else {
        ForwardChoice(strip, sets, lo, hi, at, n, u, w);
      }
    case _ => assert u + w == u;
  }

  lemma {:induction false} ArriveLoop(strip: seq<Sop>, sets: Sets, lo: nat, hi: nat, at: nat, n: Node, k: nat, u: Text, w: Text)
    requires hi <= |strip| && WellFormed(strip, lo, hi)
    requires n.Loop? && lo <= at && at + NodeLen(n) <= hi && AtNode(strip, at, n)
    requires at in Run(strip, sets, lo, hi, u) && k < NodeLen(n) && LeadsNode(sets, n, k, w)
    ensures at + k in Run(strip, sets, lo, hi, u + w)
    decreases n, 1
  {
    hide Run, WellFormed, At, Matches, Leads, Len, NodeLen;
    Lengths(n);
    var b := n.body;
    var i, j: nat :| 0 <= i <= |w| && Power(sets, b, j, w[..i]) && (if k == 0 then i == |w| else Leads(sets, b, k - 1, w[i..]))
      by { if k == 0 { assert w[..|w|] == w; } }
    var v := u + w[..i];
    if j == 0 {
      PowerNone(sets, b, w[..i]);
      assert v == u;
    } else {
      ForwardPower(strip, sets, lo, hi, at, n, j, u, w[..i]);
      RunEmpty(strip, sets, lo, hi, v, at + 1 + Len(b), at);
    }
    if k == 0 {
      assert v == u + w;
    } else {
      RunEmpty(strip, sets, lo, hi, v, at, at + 1);
      Arrive(strip, sets, lo, hi, at + 1, b, k - 1, v, w[i..]);
      assert v + w[i..] == u + w;
    }
  }

  lemma {:induction false} ArriveAlts(strip: seq<Sop>, sets: Sets, lo: nat, hi: nat, at: nat, a: Alts, k: nat, u: Text, w: Text)
    requires hi <= |strip| && WellFormed(strip, lo, hi)
    requires lo <= at && at + AltsLen(a) <= hi && AtAlts(strip, at, a)
    requires at in Run(strip, sets, lo, hi, u) && k < AltsLen(a) - 1 && LeadsAlts(sets, a, k, w)
    ensures at + k in Run(strip, sets, lo, hi, u + w)
    decreases a, 1
  {
    hide Run, WellFormed, At, Leads, Len, NodeLen, AltsLen, EndOfChoice;
    AltsLengths(a);
    var end := at + 1 + Len(a.branch);
    if k == 0 {
      assert u + w == u;
    } else if k <= Len(a.branch) + 1 {
      RunEmpty(strip, sets, lo, hi, u, at, at + 1);
      Arrive(strip, sets, lo, hi, at + 1, a.branch, k - 1, u, w);
    } else {
      RunEmpty(strip, sets, lo, hi, u, at, end + 1);
      ArriveAlts(strip, sets, lo, hi, end + 1, a.others, k - Len(a.branch) - 2, u, w);
    }
  }

  lemma {:induction false} RunIsLed(strip: seq<Sop>, sets: Sets, lo: nat, re: Re, w: Text)
    requires At(strip, lo, re) && lo + Len(re) <= |strip|
    ensures Run(strip, sets, lo, lo + Len(re), w) <= Led(sets, lo, re, w)
    decreases |w|
  {
    hide Len, At, Leads, Closure, After;
    var hi := lo + Len(re);
    var good := Led(sets, lo, re, w);
    LedClosed(strip, sets, lo, re, w);
    if w == [] {
      LeadsStart(sets, re);
      assert LeadsTo(sets, lo, re, lo, w);
      ClosureIsLeast(strip, lo, hi, {lo as int}, good);
    } else {
      var n := |w| - 1;
      RunIsLed(strip, sets, lo, re, w[..n]);
      LedAfter(strip, sets, lo, re, w[..n], w[n], Run(strip, sets, lo, hi, w[..n]));
      assert w[..n] + [w[n]] == w;
      ClosureIsLeast(strip, lo, hi, After(strip, sets, lo, hi, Run(strip, sets, lo, hi, w[..n]), w[n]), good);
    }
  }

  /** The states a run reaches are those the text read so far leads to. */
  lemma RunLeads(strip: seq<Sop>, sets: Sets, lo: nat, re: Re, w: Text)
    requires At(strip, lo, re) && lo + Len(re) <= |strip|
    ensures Run(strip, sets, lo, lo + Len(re), w) == Led(sets, lo, re, w)
  {
    hide Len, At, Leads, Run, WellFormed;
    var hi := lo + Len(re);
    RunIsLed(strip, sets, lo, re, w);
    CodeWellFormed(strip, lo, re);
    RunStart(strip, sets, lo, hi);
    forall q | q in Led(sets, lo, re, w)
      ensures q in Run(strip, sets, lo, hi, w)
    {
      Arrive(strip, sets, lo, hi, lo, re, q - lo, [], w);
      assert [] + w == w;
    }
  }

  /** The compiler's correctness, region by region. */
  lemma AcceptsLanguage(strip: seq<Sop>, sets: Sets, lo: nat, re: Re, w: Text)
    requires At(strip, lo, re) && lo + Len(re) <= |strip|
    ensures Accepts(strip, sets, lo, lo + Len(re), w) <==> Matches(sets, re, w)
  {
    hide Run, Leads, Len, At, Matches;
    RunLeads(strip, sets, lo, re, w);
    LeadsEnd(sets, re, w);
    assert LeadsTo(sets, lo, re, lo + Len(re), w) <==> Matches(sets, re, w);
  }
}
