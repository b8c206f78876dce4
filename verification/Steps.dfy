/**
  One step of the matcher: from the states before a character to the states after it, empty moves
  included, in a single forward scan that jumps back whenever a loop's prefix is newly reached.
 */
module Steps {
  import opened Strip
  import opened Automaton
  import opened States

  /** What a step is taken on: a character, a boundary, or nothing but the empty moves. */
  datatype Event = CHAR(c: Ch) | OUT | BOL | EOL | BOLEOL | NOTHING | BOW | EOW

  /** Where the operator at pc leads: empty moves from the states after, character moves from those before. */
  ghost function Gain(strip: seq<Sop>, sets: Sets, pc: nat, bef: set<int>, ch: Event, aft: set<int>): set<int>
    requires pc < |strip|
  {
    (if pc in aft then Empties(strip, pc) else {}) +
    (if ch.CHAR? && pc in bef && Fires(sets, strip[pc], ch.c) then {pc + 1} else {})
  }

  /** The states to start a step from: those given, and the character successors of bef. */
  ghost function Seeds(strip: seq<Sop>, sets: Sets, lo: nat, hi: nat, bef: set<int>, ch: Event, aft: set<int>): (seeds: set<int>)
    requires lo <= hi <= |strip|
    ensures !ch.CHAR? ==> seeds == aft
    ensures ch.CHAR? && aft == {} ==> seeds == After(strip, sets, lo, hi, bef, ch.c)
  {
    aft + if ch.CHAR? then After(strip, sets, lo, hi, bef, ch.c) else {}
  }

  /** Two sets of states, as the engine keeps them: the same kind and size, and never sharing bytes. */
  ghost predicate Apart(a: StateSet, b: StateSet)
    reads a, a.bytes, b, b.bytes
  {
    a.Valid() && b.Valid() && a.large == b.large && a.n == b.n && a != b && a.bytes != b.bytes
  }

  /** OOR1: find the O_CH. */
  method Look(strip: seq<Sop>, pc: nat, stop: nat) returns (look: nat)
    requires pc < stop <= |strip| && ChainTo(strip, pc + 1, stop)
    ensures pc + look < stop
    ensures pc + look == EndOfChoice(strip, pc + 1)
  {
    look := 1;
    while strip[pc + look].op != O_CH
      invariant pc + look < stop && ChainTo(strip, pc + look, stop)
      invariant EndOfChoice(strip, pc + look) == EndOfChoice(strip, pc + 1)
      decreases stop - look
    {
      look := look + strip[pc + look].opnd;
    }
  }

  /** The states an operator at pc is taken from: those before a character, or none. */
  ghost function Before(bef: StateSet, ch: Event): set<int>
    requires ch.CHAR? ==> bef.Valid()
    reads bef, bef.bytes
  {
    if ch.CHAR? then bef.Members() else {}
  }

  /** O_PLUS: forward, and back to the prefix.  again: the prefix was not set before. */
  method LoopEnd(aft: StateSet, here: OneState, ghost pc: nat, back: nat) returns (again: bool)
    requires aft.Valid() && here == aft.Init(pc) && 0 < back <= pc && pc + 1 < aft.n
    modifies aft, aft.bytes
    ensures aft.Valid()
    ensures aft.Members() == old(aft.Members()) + if pc in old(aft.Members()) then {pc + 1, pc - back} else {}
    ensures again <==> pc in old(aft.Members()) && pc - back !in old(aft.Members())
  {
    aft.Fwd(aft, here, pc, 1);
    var i := aft.IsSetBack(here, pc, back);
    aft.Back(aft, here, pc, back);
    again := aft.IsSetBack(here, pc, back);
    again := !i && again;
  }

  /** OQUEST_ and OCH_: two branches, both forward. */
  method Fork(aft: StateSet, here: OneState, ghost pc: nat, k: nat)
    requires aft.Valid() && here == aft.Init(pc) && pc + 1 < aft.n && pc + k < aft.n && 0 < k
    modifies aft, aft.bytes
    ensures aft.Valid()
    ensures aft.Members() == old(aft.Members()) + if pc in old(aft.Members()) then {pc + 1, pc + k} else {}
  {
    aft.Fwd(aft, here, pc, 1);
    aft.Fwd(aft, here, pc, k);
  }

  /** OOR1: done a branch, go to the O_CH. */
  method EndBranch(strip: seq<Sop>, aft: StateSet, here: OneState, pc: nat, stop: nat)
    requires pc < stop <= |strip| && stop < aft.n && ChainTo(strip, pc + 1, stop)
    requires aft.Valid() && here == aft.Init(pc)
    modifies aft, aft.bytes
    ensures aft.Valid()
    ensures aft.Members() == old(aft.Members()) + if pc in old(aft.Members()) then {EndOfChoice(strip, pc + 1) as int} else {}
  {
    var on := aft.IsStateIn(here, pc);
    if on {
      var look := Look(strip, pc, stop);
      aft.Fwd(aft, here, pc, look);
    }
  }

  /** The operators that consume a character. */
  method OnChar(strip: seq<Sop>, sets: Sets, pc: nat, here: OneState, bef: StateSet, ch: Event, aft: StateSet)
    requires pc < |strip| && pc + 1 < aft.n && strip[pc].op in {OCHAR, OANY, OANYOF}
    requires aft.Valid() && (ch.CHAR? ==> Apart(bef, aft)) && here == aft.Init(pc)
    modifies aft, aft.bytes
    ensures aft.Valid()
    ensures aft.Members() == old(aft.Members()) + Gain(strip, sets, pc, old(Before(bef, ch)), ch, old(aft.Members()))
  {
    var s := strip[pc];
    if ch.CHAR? {
      var hit := match s.op
        case OCHAR => ch.c as int == s.opnd
        case OANYOF => s.opnd < |sets| && ch.c in sets[s.opnd]
        case _ => true;
      if hit { aft.Fwd(bef, here, pc, 1); }
    }
  }

  /** The switch on the operator at pc.  again: the loop body must be reconsidered. */
  method Switch(strip: seq<Sop>, sets: Sets, start: nat, stop: nat, pc: nat, here: OneState,
                bef: StateSet, ch: Event, aft: StateSet) returns (again: bool)
    requires start <= pc < stop <= |strip| && stop < aft.n && WellFormedAt(strip, start, stop, pc)
    requires aft.Valid() && (ch.CHAR? ==> Apart(bef, aft)) && here == aft.Init(pc)
    modifies aft, aft.bytes
    ensures aft.Valid()
    ensures aft.Members() == old(aft.Members()) + Gain(strip, sets, pc, old(Before(bef, ch)), ch, old(aft.Members()))
    ensures again <==> strip[pc].op == O_PLUS && pc in old(aft.Members()) && pc - strip[pc].opnd !in old(aft.Members())
  {
    var s := strip[pc];
    again := false;
    if s.op == OCHAR || s.op == OANY || s.op == OANYOF {
      OnChar(strip, sets, pc, here, bef, ch, aft);
      return;
    }
    again := SwitchEmpty(strip, sets, start, stop, pc, here, bef, ch, aft);
  }

  /** The operators that consume nothing. */
  method SwitchEmpty(strip: seq<Sop>, sets: Sets, start: nat, stop: nat, pc: nat, here: OneState,
                     bef: StateSet, ch: Event, aft: StateSet) returns (again: bool)
    requires start <= pc < stop <= |strip| && stop < aft.n && WellFormedAt(strip, start, stop, pc)
    requires aft.Valid() && (ch.CHAR? ==> Apart(bef, aft)) && here == aft.Init(pc)
    requires strip[pc].op != OCHAR && strip[pc].op != OANY && strip[pc].op != OANYOF
    modifies aft, aft.bytes
    ensures aft.Valid()
    ensures aft.Members() == old(aft.Members()) + Gain(strip, sets, pc, old(Before(bef, ch)), ch, old(aft.Members()))
    ensures again <==> strip[pc].op == O_PLUS && pc in old(aft.Members()) && pc - strip[pc].opnd !in old(aft.Members())
  {
    var s := strip[pc];
    again := false;
    GainEmpty(strip, sets, start, stop, pc, Before(bef, ch), ch, aft.Members());
    hide Gain, Before, WellFormedAt, Empties, EndOfChoice, Apart, StateSet.Init, StateSet.Valid, StateSet.Members, ChainTo;
    if s.op == O_PLUS {
      again := LoopEnd(aft, here, pc, s.opnd);
    } else if s.op == OQUEST_ || s.op == OCH_ || (s.op == OOR2 && strip[pc + s.opnd].op != O_CH) {
      Fork(aft, here, pc, s.opnd);
    } else if s.op == OOR1 {
      EndBranch(strip, aft, here, pc, stop);
    } else if s.op != OEND {
      aft.Fwd(aft, here, pc, 1);
    }
  }

  /** Gain, spelled out for the operators that consume nothing. */
  lemma GainEmpty(strip: seq<Sop>, sets: Sets, lo: nat, hi: nat, pc: nat, bef: set<int>, ch: Event, aft: set<int>)
    requires lo <= pc < hi <= |strip| && WellFormedAt(strip, lo, hi, pc)
    requires strip[pc].op !in {OCHAR, OANY, OANYOF}
    ensures var s := strip[pc]; var gain := Gain(strip, sets, pc, bef, ch, aft);
      match s.op
      case OEND => gain == {}
      case O_PLUS => 0 < s.opnd <= pc && gain == if pc in aft then {pc + 1, pc - s.opnd} else {}
      case OQUEST_ => 0 < s.opnd && pc + s.opnd < hi && gain == if pc in aft then {pc + 1, pc + s.opnd} else {}
      case OCH_ => 0 < s.opnd && pc + s.opnd < hi && gain == if pc in aft then {pc + 1, pc + s.opnd} else {}
      case OOR1 => ChainTo(strip, pc + 1, hi) && gain == if pc in aft then {EndOfChoice(strip, pc + 1) as int} else {}
      case OOR2 => 0 < s.opnd && pc + s.opnd < hi && gain == if pc in aft then
                     (if strip[pc + s.opnd].op != O_CH then {pc + 1, pc + s.opnd} else {pc + 1}) else {}
      case _ => gain == if pc in aft then {pc + 1} else {}
  {
    hide EndOfChoice, ChainTo;
    assert strip[pc].op == O_PLUS ==> pc - strip[pc].opnd in Empties(strip, pc);
  }

  lemma OneOf(strip: seq<Sop>, lo: nat, hi: nat, pc: nat)
    requires WellFormed(strip, lo, hi) && lo <= pc < hi
    ensures WellFormedAt(strip, lo, hi, pc)
  {
  }

  /** Everything the scan has passed is in order. */
  ghost predicate Done(strip: seq<Sop>, sets: Sets, lo: nat, pc: nat, bef: set<int>, ch: Event, aft: set<int>)
    requires pc <= |strip|
  {
    forall j :: lo <= j < pc ==> Gain(strip, sets, j, bef, ch, aft) <= aft
  }

  /** One turn of the scan: execute the operator at pc, then go on to the next or back into a loop. */
  method Advance(strip: seq<Sop>, sets: Sets, start: nat, stop: nat, pc: nat, here: OneState,
                 bef: StateSet, ch: Event, aft: StateSet, ghost goal: set<int>) returns (next: nat, there: OneState)
    requires 0 < start <= pc < stop <= |strip| && WellFormedAt(strip, start, stop, pc) && stop < aft.n
    requires aft.Valid() && (ch.CHAR? ==> Apart(bef, aft)) && here == aft.Init(pc)
    requires Done(strip, sets, start, pc, Before(bef, ch), ch, aft.Members())
    requires aft.Members() <= goal && Gain(strip, sets, pc, Before(bef, ch), ch, aft.Members()) <= goal
    modifies aft, aft.bytes
    ensures aft.Valid() && start <= next <= stop && there == aft.Init(next)
    ensures old(aft.Members()) <= aft.Members() <= goal
    ensures Done(strip, sets, start, next, old(Before(bef, ch)), ch, aft.Members())
    ensures next == pc + 1 || |goal - aft.Members()| < |goal - old(aft.Members())|
  {
    hide Gain, Empties, Done, Fires, Before, WellFormedAt, StateSet.Init, StateSet.Inc;
    ghost var was := aft.Members();
    ghost var b := Before(bef, ch);
    DoneOne(strip, sets, start, stop, pc, b, ch, was, was + Gain(strip, sets, pc, b, ch, was));
    var again := Switch(strip, sets, start, stop, pc, here, bef, ch, aft);
    next, there := pc, here;
    if again {
      FewerLeft(goal, was, aft.Members(), pc - strip[pc].opnd);
      next := pc - (strip[pc].opnd + 1);
      there := aft.Init(next);
    }
    aft.IncInit(next);
    next := next + 1;
    there := aft.Inc(there);
  }

  /**
    The set after a step is exactly the least closed set above the seeds.  A jump back adds a state
    not seen before, so the scan ends.
   */
  method Step(strip: seq<Sop>, sets: Sets, start: nat, stop: nat, bef: StateSet, ch: Event, aft: StateSet)
    requires 0 < start <= stop <= |strip| && WellFormed(strip, start, stop) && stop < aft.n
    requires aft.Valid() && (ch.CHAR? ==> Apart(bef, aft))
    modifies aft, aft.bytes
    ensures aft.Valid()
    ensures aft.Members() ==
            Closure(strip, start, stop, Seeds(strip, sets, start, stop, old(Before(bef, ch)), ch, old(aft.Members())))
  {
    hide WellFormed, Closure, Gain, Empties, Done, After, Fires, ClosedAbove, StateSet.Init, StateSet.Members, StateSet.Valid;
    ghost var b := Before(bef, ch);
    ghost var seeds := Seeds(strip, sets, start, stop, b, ch, aft.Members());
    ghost var goal := Closure(strip, start, stop, seeds);
    ClosureIsClosed(strip, start, stop, seeds);
    FromIn(strip, start, stop, seeds, goal);
    DoneNone(strip, sets, start, b, ch, aft.Members());
    var pc, here := start, aft.Init(start);
    while pc != stop
      invariant start <= pc <= stop && here == aft.Init(pc)
      invariant aft.Valid() && (ch.CHAR? ==> Apart(bef, aft)) && Before(bef, ch) == b
      invariant old(aft.Members()) <= aft.Members() <= goal
      invariant Done(strip, sets, start, pc, b, ch, aft.Members())
      decreases |goal - aft.Members()|, stop - pc
    {
      ghost var was := aft.Members();
      OneOf(strip, start, stop, pc);
      GainInGoal(strip, sets, start, stop, pc, b, ch, was, seeds, goal);
      pc, here := Advance(strip, sets, start, stop, pc, here, bef, ch, aft, goal);
      FewerOrSame(goal, was, aft.Members());
    }
    AllDone(strip, sets, start, stop, b, ch, old(aft.Members()), aft.Members());
    ClosureUnique(strip, start, stop, seeds, aft.Members());
  }

  lemma FromIn(strip: seq<Sop>, lo: nat, hi: nat, from: set<int>, states: set<int>)
    requires lo <= hi <= |strip| && ClosedAbove(strip, lo, hi, from, states)
    ensures from <= states
  {
  }

  lemma DoneNone(strip: seq<Sop>, sets: Sets, lo: nat, bef: set<int>, ch: Event, aft: set<int>)
    requires lo <= |strip|
    ensures Done(strip, sets, lo, lo, bef, ch, aft)
  {
  }

  lemma GainInGoal(strip: seq<Sop>, sets: Sets, lo: nat, hi: nat, pc: nat, bef: set<int>, ch: Event, aft: set<int>,
                   seeds: set<int>, goal: set<int>)
    requires lo <= pc < hi <= |strip| && aft <= goal && ClosedAbove(strip, lo, hi, seeds, goal)
    requires ch.CHAR? ==> After(strip, sets, lo, hi, bef, ch.c) <= seeds
    ensures Gain(strip, sets, pc, bef, ch, aft) <= goal
  {
    if ch.CHAR? && pc in bef && Fires(sets, strip[pc], ch.c) {
      assert pc + 1 in After(strip, sets, lo, hi, bef, ch.c);
    }
  }

  /**
    Having passed pc: earlier operators gain nothing from what it added, which lies after it; unless
    it is a loop's end, and the loop's start is new.
   */
  lemma DoneOne(strip: seq<Sop>, sets: Sets, lo: nat, hi: nat, pc: nat, bef: set<int>, ch: Event, was: set<int>, now: set<int>)
    requires lo <= pc < hi <= |strip| && WellFormedAt(strip, lo, hi, pc)
    requires Done(strip, sets, lo, pc, bef, ch, was)
    requires now == was + Gain(strip, sets, pc, bef, ch, was)
    ensures strip[pc].op == O_PLUS && pc in was && pc - strip[pc].opnd !in was ==>
              0 < strip[pc].opnd && lo <= pc - strip[pc].opnd && pc - strip[pc].opnd in now &&
              Done(strip, sets, lo, pc - strip[pc].opnd, bef, ch, now)
    ensures !(strip[pc].op == O_PLUS && pc in was && pc - strip[pc].opnd !in was) ==>
              Done(strip, sets, lo, pc + 1, bef, ch, now)
  {
    hide Fires;
    var again := strip[pc].op == O_PLUS && pc in was && pc - strip[pc].opnd !in was;
    EmptiesForward(strip, lo, hi, pc);
    forall j | lo <= j <= pc && (again ==> j < pc - strip[pc].opnd)
      ensures Gain(strip, sets, j, bef, ch, now) <= now
    {
      if j < pc {
        assert Gain(strip, sets, j, bef, ch, was) <= was;
        assert j in now ==> j in was;
      }
    }
  }

  lemma EmptiesForward(strip: seq<Sop>, lo: nat, hi: nat, pc: nat)
    requires lo <= pc < hi <= |strip| && WellFormedAt(strip, lo, hi, pc)
    ensures forall q :: q in Empties(strip, pc) ==> pc < q || (strip[pc].op == O_PLUS && q == pc - strip[pc].opnd && lo <= q < pc)
  {
    if strip[pc].op == OOR1 { ChainEnd(strip, pc + 1, hi); }
  }

  lemma AllDone(strip: seq<Sop>, sets: Sets, lo: nat, hi: nat, bef: set<int>, ch: Event, from: set<int>, aft: set<int>)
    requires lo <= hi <= |strip| && Done(strip, sets, lo, hi, bef, ch, aft) && from <= aft
    ensures ClosedAbove(strip, lo, hi, Seeds(strip, sets, lo, hi, bef, ch, from), aft)
  {
    hide Fires, Empties;
    forall pc | lo <= pc < hi && pc in aft
      ensures Empties(strip, pc) <= aft
    {
      assert Gain(strip, sets, pc, bef, ch, aft) <= aft;
    }
    if ch.CHAR? {
      forall pc | pc in bef && lo <= pc < hi && Fires(sets, strip[pc], ch.c)
        ensures pc + 1 in aft
      {
        assert Gain(strip, sets, pc, bef, ch, aft) <= aft;
      }
    }
  }

  lemma FewerLeft(goal: set<int>, was: set<int>, now: set<int>, q: int)
    requires was <= now <= goal && q in now && q !in was
    ensures |goal - now| < |goal - was|
  {
    Smaller(goal - now, goal - was - {q});
  }

  lemma FewerOrSame(goal: set<int>, was: set<int>, now: set<int>)
    requires was <= now <= goal
    ensures |goal - now| <= |goal - was|
  {
    Smaller(goal - now, goal - was);
  }

  lemma Smaller(a: set<int>, b: set<int>)
    requires a <= b
    ensures |a| <= |b|
  {
    assert a + (b - a) == b;
  }
}
