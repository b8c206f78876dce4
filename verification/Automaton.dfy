/**
  The strip as a nondeterministic automaton.  A state is a position in the strip, the state just
  before that operator is executed.  Nothing here says how the sets of states are computed: the
  closure is the least closed set, and a run is a sequence of closures.
 */
module Automaton {
  import opened Strip

  /** From an OOR1, the O_CH that ends its choice: the chain of OOR2s leads there. */
  function EndOfChoice(strip: seq<Sop>, pc: nat): nat
    decreases |strip| - pc
  {
    if pc < |strip| && strip[pc].op == OOR2 && strip[pc].opnd > 0
    then EndOfChoice(strip, pc + strip[pc].opnd)
    else pc
  }

  /** Where the empty moves from state pc go. */
  function Empties(strip: seq<Sop>, pc: nat): set<int>
    requires pc < |strip|
  {
    var s := strip[pc];
    match s.op
    case OPLUS_ => {pc + 1}
    case O_PLUS => {pc + 1, pc - s.opnd}
    case OQUEST_ => {pc + 1, pc + s.opnd}
    case O_QUEST => {pc + 1}
    case OLPAREN => {pc + 1}
    case ORPAREN => {pc + 1}
    case OCH_ => {pc + 1, pc + s.opnd}
    case OOR1 => {EndOfChoice(strip, pc + 1)}
    case OOR2 =>
      if pc + s.opnd < |strip| && strip[pc + s.opnd].op != O_CH then {pc + 1, pc + s.opnd} else {pc + 1}
    case O_CH => {pc + 1}
    case _ => {}
  }

  /** Does the operator consume c? */
  predicate Fires(sets: Sets, s: Sop, c: Ch) {
    match s.op
    case OCHAR => s.opnd == c as int
    case OANY => true
    case OANYOF => s.opnd < |sets| && c in sets[s.opnd]
    case _ => false
  }

  /**
    The region from lo up to hi: no move leaves it, moves go forward except from O_PLUS, and every
    chain of alternatives ends in an O_CH.
   */
  ghost predicate WellFormed(strip: seq<Sop>, lo: nat, hi: nat) {
    && lo <= hi <= |strip|
    && forall pc :: lo <= pc < hi ==> WellFormedAt(strip, lo, hi, pc)
  }

  ghost predicate WellFormedAt(strip: seq<Sop>, lo: nat, hi: nat, pc: nat)
    requires lo <= pc < hi <= |strip|
  {
    && (forall q :: q in Empties(strip, pc) ==> lo <= q <= hi)
    && (strip[pc].op == O_PLUS ==> 0 < strip[pc].opnd)
    && (strip[pc].op == OOR1 ==> ChainTo(strip, pc + 1, hi))
    && (strip[pc].op in {OQUEST_, OCH_, OOR2} ==> 0 < strip[pc].opnd && pc + strip[pc].opnd < hi)
  }

  /** The OOR2s from pc on lead to an O_CH before hi. */
  ghost predicate ChainTo(strip: seq<Sop>, pc: nat, hi: nat)
    requires hi <= |strip|
    decreases hi - pc
  {
    && pc < hi
    && (strip[pc].op == O_CH ||
        (strip[pc].op == OOR2 && strip[pc].opnd > 0 && ChainTo(strip, pc + strip[pc].opnd, hi)))
  }

  ghost predicate Closed(strip: seq<Sop>, lo: nat, hi: nat, states: set<int>)
    requires lo <= hi <= |strip|
  {
    forall pc :: lo <= pc < hi && pc in states ==> Empties(strip, pc) <= states
  }

  ghost predicate ClosedAbove(strip: seq<Sop>, lo: nat, hi: nat, from: set<int>, states: set<int>)
    requires lo <= hi <= |strip|
  {
    from <= states && Closed(strip, lo, hi, states)
  }

  ghost function States(lo: nat, hi: nat): (states: set<int>)
    decreases hi - lo + 1
    ensures forall q :: q in states <==> lo <= q <= hi
  {
    if lo > hi then {} else States(lo + 1, hi) + {lo as int}
  }

  /** The states that are in every closed set above the given one. */
  ghost function Closure(strip: seq<Sop>, lo: nat, hi: nat, from: set<int>): (states: set<int>)
    requires lo <= hi <= |strip|
  {
    set q | q in from + States(lo, hi) && forall s :: ClosedAbove(strip, lo, hi, from, s) ==> q in s
  }

  /** Where the moves on c from the given states go. */
  ghost function After(strip: seq<Sop>, sets: Sets, lo: nat, hi: nat, states: set<int>, c: Ch): set<int>
    requires lo <= hi <= |strip|
  {
    set pc | pc in states && lo <= pc < hi && Fires(sets, strip[pc], c) :: pc + 1
  }

  /** The states reached from lo by reading w inside the region. */
  ghost function Run(strip: seq<Sop>, sets: Sets, lo: nat, hi: nat, w: Text): set<int>
    requires lo <= hi <= |strip|
    decreases |w|
  {
    if w == [] then Closure(strip, lo, hi, {lo})
    else
      var n := |w| - 1;
      Closure(strip, lo, hi, After(strip, sets, lo, hi, Run(strip, sets, lo, hi, w[..n]), w[n]))
  }

  ghost predicate Accepts(strip: seq<Sop>, sets: Sets, lo: nat, hi: nat, w: Text)
    requires lo <= hi <= |strip|
  {
    hi in Run(strip, sets, lo, hi, w)
  }

  // The closure is the least closed set.

  lemma ClosureIsClosed(strip: seq<Sop>, lo: nat, hi: nat, from: set<int>)
    requires WellFormed(strip, lo, hi)
    ensures ClosedAbove(strip, lo, hi, from, Closure(strip, lo, hi, from))
  {
    var states := Closure(strip, lo, hi, from);
    assert forall q :: q in from ==> q in from + States(lo, hi);
    forall pc | lo <= pc < hi && pc in states
      ensures Empties(strip, pc) <= states
    {
      assert WellFormedAt(strip, lo, hi, pc);
      forall q | q in Empties(strip, pc)
        ensures q in states
      {
        forall s | ClosedAbove(strip, lo, hi, from, s)
          ensures q in s
        {
          assert pc in s;
        }
      }
    }
  }

  lemma ClosureIsLeast(strip: seq<Sop>, lo: nat, hi: nat, from: set<int>, states: set<int>)
    requires lo <= hi <= |strip|
    requires ClosedAbove(strip, lo, hi, from, states)
    ensures Closure(strip, lo, hi, from) <= states
  {
  }

  /** Whatever is closed, above, and contained in the closure is the closure. */
  lemma ClosureUnique(strip: seq<Sop>, lo: nat, hi: nat, from: set<int>, states: set<int>)
    requires WellFormed(strip, lo, hi)
    requires ClosedAbove(strip, lo, hi, from, states)
    requires states <= Closure(strip, lo, hi, from)
    ensures states == Closure(strip, lo, hi, from)
  {
    ClosureIsLeast(strip, lo, hi, from, states);
  }

  lemma ClosureIdempotent(strip: seq<Sop>, lo: nat, hi: nat, from: set<int>)
    requires WellFormed(strip, lo, hi)
    ensures Closure(strip, lo, hi, Closure(strip, lo, hi, from)) == Closure(strip, lo, hi, from)
  {
    var c := Closure(strip, lo, hi, from);
    ClosureIsClosed(strip, lo, hi, from);
    ClosureIsClosed(strip, lo, hi, c);
    ClosureIsLeast(strip, lo, hi, c, c);
  }

  lemma ClosureOfUnion(strip: seq<Sop>, lo: nat, hi: nat, a: set<int>, b: set<int>)
    requires WellFormed(strip, lo, hi)
    ensures Closure(strip, lo, hi, a + b) == Closure(strip, lo, hi, a) + Closure(strip, lo, hi, b)
  {
    ClosureIsClosed(strip, lo, hi, a);
    ClosureIsClosed(strip, lo, hi, b);
    ClosureIsClosed(strip, lo, hi, a + b);
    var u := Closure(strip, lo, hi, a + b);
    assert ClosedAbove(strip, lo, hi, a, u) && ClosedAbove(strip, lo, hi, b, u);
    ClosureIsLeast(strip, lo, hi, a, u);
    ClosureIsLeast(strip, lo, hi, b, u);
    var v := Closure(strip, lo, hi, a) + Closure(strip, lo, hi, b);
    assert Closed(strip, lo, hi, v);
    ClosureIsLeast(strip, lo, hi, a + b, v);
  }

  lemma ClosureOfNothing(strip: seq<Sop>, lo: nat, hi: nat)
    requires lo <= hi <= |strip|
    ensures Closure(strip, lo, hi, {}) == {}
  {
    assert ClosedAbove(strip, lo, hi, {}, {});
  }

  // Following one move of a run.

  lemma RunStart(strip: seq<Sop>, sets: Sets, lo: nat, hi: nat)
    requires WellFormed(strip, lo, hi)
    ensures lo in Run(strip, sets, lo, hi, [])
  {
    ClosureIsClosed(strip, lo, hi, {lo});
  }

  lemma RunEmpty(strip: seq<Sop>, sets: Sets, lo: nat, hi: nat, w: Text, pc: nat, q: int)
    requires WellFormed(strip, lo, hi)
    requires lo <= pc < hi && pc in Run(strip, sets, lo, hi, w)
    requires q in Empties(strip, pc)
    ensures q in Run(strip, sets, lo, hi, w)
  {
    if w == [] {
      ClosureIsClosed(strip, lo, hi, {lo});
    } else {
      var n := |w| - 1;
      ClosureIsClosed(strip, lo, hi, After(strip, sets, lo, hi, Run(strip, sets, lo, hi, w[..n]), w[n]));
    }
  }

  lemma RunChar(strip: seq<Sop>, sets: Sets, lo: nat, hi: nat, w: Text, pc: nat, c: Ch)
    requires WellFormed(strip, lo, hi)
    requires lo <= pc < hi && pc in Run(strip, sets, lo, hi, w)
    requires Fires(sets, strip[pc], c)
    ensures pc + 1 in Run(strip, sets, lo, hi, w + [c])
  {
    assert (w + [c])[..|w|] == w;
    var after := After(strip, sets, lo, hi, Run(strip, sets, lo, hi, w), c);
    assert pc + 1 in after;
    ClosureIsClosed(strip, lo, hi, after);
  }

  /** The code of a concatenation is a well-formed region. */
  lemma {:induction false} CodeWellFormed(strip: seq<Sop>, lo: nat, re: Re)
    requires At(strip, lo, re)
    ensures WellFormed(strip, lo, lo + Len(re))
    decreases re
  {
    hide AtNode, NodeLen, WellFormed;
    AtWithin(strip, lo, re);
    match re
    case Nil => NothingWellFormed(strip, lo);
    case Cons(h, t) =>
      NodeWellFormed(strip, lo, h);
      CodeWellFormed(strip, lo + NodeLen(h), t);
      Join(strip, lo, lo + NodeLen(h), lo + Len(re));
  }

  lemma NothingWellFormed(strip: seq<Sop>, lo: nat)
    requires lo <= |strip|
    ensures WellFormed(strip, lo, lo)
  {
  }

  lemma Widen(strip: seq<Sop>, lo': nat, lo: nat, hi: nat, hi': nat)
    requires lo' <= lo <= hi <= hi' <= |strip|
    requires WellFormed(strip, lo, hi)
    ensures forall pc :: lo <= pc < hi ==> WellFormedAt(strip, lo', hi', pc)
  {
    forall pc | lo <= pc < hi
      ensures WellFormedAt(strip, lo', hi', pc)
    {
      assert WellFormedAt(strip, lo, hi, pc);
      if strip[pc].op == OOR1 { ChainWiden(strip, pc + 1, hi, hi'); }
    }
  }

  lemma {:induction false} ChainWiden(strip: seq<Sop>, pc: nat, hi: nat, hi': nat)
    requires hi <= hi' <= |strip| && ChainTo(strip, pc, hi)
    ensures ChainTo(strip, pc, hi')
    decreases hi - pc
  {
    if strip[pc].op == OOR2 { ChainWiden(strip, pc + strip[pc].opnd, hi, hi'); }
  }

  lemma {:induction false} ChainEnd(strip: seq<Sop>, pc: nat, hi: nat)
    requires hi <= |strip| && ChainTo(strip, pc, hi)
    ensures pc <= EndOfChoice(strip, pc) < hi
    ensures strip[EndOfChoice(strip, pc)].op == O_CH
    decreases hi - pc
  {
    if strip[pc].op == OOR2 { ChainEnd(strip, pc + strip[pc].opnd, hi); }
  }

  lemma Join(strip: seq<Sop>, lo: nat, mid: nat, hi: nat)
    requires WellFormed(strip, lo, mid) && WellFormed(strip, mid, hi)
    ensures WellFormed(strip, lo, hi)
  {
    Widen(strip, lo, lo, mid, hi);
    Widen(strip, lo, mid, hi, hi);
  }

  lemma {:induction false} NodeWellFormed(strip: seq<Sop>, lo: nat, n: Node)
    requires AtNode(strip, lo, n)
    ensures WellFormed(strip, lo, lo + NodeLen(n))
    decreases n, 1
  {
    hide Len, NodeLen, AltsLen, At, AtAlts, EndOfChoice, ChainTo;
    Lengths(n);
    match n
    case Loop(b) => LoopWellFormed(strip, lo, n);
    case Maybe(b) => LoopWellFormed(strip, lo, n);
    case Choice(f, o) => ChoiceWellFormed(strip, lo, lo + NodeLen(n), n, f, o);
    case _ =>
  }

  lemma {:induction false} LoopWellFormed(strip: seq<Sop>, lo: nat, n: Node)
    requires (n.Loop? || n.Maybe?) && AtNode(strip, lo, n)
    ensures WellFormed(strip, lo, lo + NodeLen(n))
    decreases n, 0
  {
    hide Len, NodeLen, AltsLen, At, AtAlts, EndOfChoice, ChainTo;
    Lengths(n);
    var hi := lo + NodeLen(n);
    CodeWellFormed(strip, lo + 1, n.body);
    Widen(strip, lo, lo + 1, hi - 1, hi);
    assert WellFormedAt(strip, lo, hi, lo);
    assert WellFormedAt(strip, lo, hi, hi - 1);
  }

  lemma {:induction false} ChoiceWellFormed(strip: seq<Sop>, lo: nat, hi: nat, n: Node, f: Re, o: Alts)
    requires AtNode(strip, lo, n) && n == Choice(f, o) && hi == lo + NodeLen(n)
    ensures WellFormed(strip, lo, hi)
    decreases n, 0
  {
    hide Len, NodeLen, AltsLen, At, AtAlts, EndOfChoice;
    Lengths(n);
    CodeWellFormed(strip, lo + 1, f);
    var or1 := lo + 1 + Len(f);
    Widen(strip, lo, lo + 1, or1, hi);
    AltsWellFormed(strip, lo, or1 + 1, hi, o);
    ChainEnd(strip, or1 + 1, hi);
    assert WellFormedAt(strip, lo, hi, or1);
    assert WellFormedAt(strip, lo, hi, lo);
  }

  lemma {:induction false} AltsWellFormed(strip: seq<Sop>, outer: nat, lo: nat, hi: nat, a: Alts)
    requires outer <= lo && AtAlts(strip, lo, a) && hi == lo + AltsLen(a)
    ensures forall pc :: lo <= pc < hi ==> WellFormedAt(strip, outer, hi, pc)
    ensures ChainTo(strip, lo, hi)
    ensures EndOfChoice(strip, lo) == hi - 1
    ensures strip[hi - 1].op == O_CH
    decreases a
  {
    hide Len, NodeLen, AltsLen, At, AtNode, WellFormed, WellFormedAt;
    AltsLengths(a);
    var end := lo + 1 + Len(a.branch);
    CodeWellFormed(strip, lo + 1, a.branch);
    Widen(strip, outer, lo + 1, end, hi);
    if a.More? { AltsWellFormed(strip, outer, end + 1, hi, a.others); }
    AltsMarks(strip, outer, lo, hi, a);
  }

  /** The two operators around the first branch of a. */
  lemma AltsMarks(strip: seq<Sop>, outer: nat, lo: nat, hi: nat, a: Alts)
    requires outer <= lo && AtAlts(strip, lo, a) && hi == lo + AltsLen(a)
    requires a.More? ==> ChainTo(strip, lo + 2 + Len(a.branch), hi)
    ensures WellFormedAt(strip, outer, hi, lo)
    ensures WellFormedAt(strip, outer, hi, lo + 1 + Len(a.branch))
  {
    hide Len, NodeLen, AltsLen, At, AtNode, WellFormed;
    AltsLengths(a);
    var end := lo + 1 + Len(a.branch);
    if a.More? {
      AltsLengths(a.others);
      ChainEnd(strip, end + 1, hi);
    }
  }

  lemma EndOfAlts(strip: seq<Sop>, lo: nat, a: Alts)
    requires AtAlts(strip, lo, a)
    ensures EndOfChoice(strip, lo) == lo + AltsLen(a) - 1
    ensures strip[lo + AltsLen(a) - 1].op == O_CH
  {
    AltsWellFormed(strip, lo, lo, lo + AltsLen(a), a);
  }
}
