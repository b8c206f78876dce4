/**
  Stepping through a text: slow finds the longest match from one position, fast finds whether there is
  a match anywhere, and both leave sets of states behind in the same four objects.
 */
module Engine {
  import opened Strip
  import opened Automaton
  import opened Runs
  import opened States
  import opened Steps
  import opened Dissection

  /** A compiled expression. */
  datatype Guts = Guts(
    strip: seq<Sop>,
    sets: Sets,
    newline: bool,    // REG_NEWLINE
    nosub: bool,      // REG_NOSUB
    firststate: nat,
    laststate: nat,
    nbol: nat,
    neol: nat,
    nsub: nat,
    must: Text,       // empty: none
    bad: bool,        // something is wrong with the strip
    magic: int)

  datatype Eflags = Eflags(notbol: bool, noteol: bool, startend: bool)

  /** What is passed up and down during one match. */
  class Match {
    const g: Guts
    const eflags: Eflags
    const text: Text
    const beginp: nat
    const endp: nat
    var coldp: nat
    var pmatch: seq<Span>
    const st: StateSet
    const anew: StateSet
    const tmp: StateSet
    const empty: StateSet

    constructor (g: Guts, large: bool, eflags: Eflags, text: Text, beginp: nat, endp: nat)
      requires large || |g.strip| <= 32
      requires beginp <= endp <= |text|
      ensures this.g == g && this.eflags == eflags && this.text == text && this.beginp == beginp && this.endp == endp
      ensures Ready(this) && fresh(Owned(this))
    {
      this.g, this.eflags, this.text, this.beginp, this.endp := g, eflags, text, beginp, endp;
      coldp, pmatch := 0, [];
      st := new StateSet(large, |g.strip|);
      anew := new StateSet(large, |g.strip|);
      tmp := new StateSet(large, |g.strip|);
      empty := new StateSet(large, |g.strip|);
    }
  }

  /** The objects a search may write. */
  ghost function Owned(m: Match): set<object> {
    {m.st, m.st.bytes, m.anew, m.anew.bytes, m.tmp, m.tmp.bytes}
  }

  ghost predicate Ready(m: Match)
    reads m.st, m.st.bytes, m.anew, m.anew.bytes, m.tmp, m.tmp.bytes, m.empty, m.empty.bytes
  {
    && m.beginp <= m.endp <= |m.text|
    && m.st.n == |m.g.strip|
    && Apart(m.st, m.anew) && Apart(m.st, m.tmp) && Apart(m.st, m.empty)
    && Apart(m.anew, m.tmp) && Apart(m.anew, m.empty) && Apart(m.tmp, m.empty)
    && m.empty.Members() == {}
  }

  /** The current states, and those of a fresh start. */
  ghost function St(m: Match): set<int>
    requires Ready(m)
    reads m.st, m.st.bytes, m.anew, m.anew.bytes, m.tmp, m.tmp.bytes, m.empty, m.empty.bytes
  {
    m.st.Members()
  }

  ghost function Anew(m: Match): set<int>
    requires Ready(m)
    reads m.st, m.st.bytes, m.anew, m.anew.bytes, m.tmp, m.tmp.bytes, m.empty, m.empty.bytes
  {
    m.anew.Members()
  }

  /** A stretch of strip to run over: never the first operator, never past the last. */
  ghost predicate Region(g: Guts, lo: nat, hi: nat) {
    0 < lo <= hi < |g.strip| && WellFormed(g.strip, lo, hi)
  }

  ghost predicate Hits(g: Guts, text: Text, lo: nat, hi: nat, a: nat, b: nat)
    requires Region(g, lo, hi) && a <= b <= |text|
  {
    Accepts(g.strip, g.sets, lo, hi, text[a..b])
  }

  predicate IsWord(c: Ch) {
    'a' <= c <= 'z' || 'A' <= c <= 'Z' || '0' <= c <= '9' || c == '_'
  }

  /**
    The boundaries between lastc and c.  With no anchors in the strip these steps move along empty
    edges only, and leave a closed set as it is.
   */
  method Boundary(m: Match, lastc: Event, c: Event, startst: nat, stopst: nat)
    requires Ready(m) && Region(m.g, startst, stopst)
    requires lastc == OUT || lastc.CHAR?
    requires c == OUT || c.CHAR?
    requires Closure(m.g.strip, startst, stopst, St(m)) == St(m)
    modifies m.st, m.st.bytes
    ensures Ready(m) && St(m) == old(St(m)) && Anew(m) == old(Anew(m))
  {
    hide Closure, WellFormed, StateSet.Members;
    var flagch, i := NOTHING, 0;
    if (lastc == CHAR('\n') && m.g.newline) || (lastc == OUT && !m.eflags.notbol) {
      flagch := BOL;
      i := m.g.nbol;
    }
    if (c == CHAR('\n') && m.g.newline) || (c == OUT && !m.eflags.noteol) {
      flagch := if flagch == BOL then BOLEOL else EOL;
      i := i + m.g.neol;
    }
    while i > 0
      invariant Ready(m) && St(m) == old(St(m)) && Anew(m) == old(Anew(m))
    {
      Step(m.g.strip, m.g.sets, startst, stopst, m.st, flagch, m.st);
      i := i - 1;
    }
    if (flagch == BOL || (lastc != OUT && !IsWord(lastc.c))) && c != OUT && IsWord(c.c) {
      flagch := BOW;
    }
    if lastc != OUT && IsWord(lastc.c) && (flagch == EOL || (c != OUT && !IsWord(c.c))) {
      flagch := EOW;
    }
    if flagch == BOW || flagch == EOW {
      Step(m.g.strip, m.g.sets, startst, stopst, m.st, flagch, m.st);
    }
  }

  /** The character before position p, and the one at p. */
  function CharBefore(m: Match, p: nat): (e: Event)
    requires m.beginp <= p <= m.endp <= |m.text|
    ensures e == OUT || e.CHAR?
  {
    if p == m.beginp then OUT else CHAR(m.text[p - 1])
  }

  function CharAt(m: Match, p: nat): (e: Event)
    requires p <= m.endp <= |m.text|
    ensures e == OUT || e.CHAR?
  {
    if p == m.endp then OUT else CHAR(m.text[p])
  }

  /** st := the states before anything is read. */
  method StartStates(m: Match, startst: nat, stopst: nat)
    requires Ready(m) && Region(m.g, startst, stopst)
    modifies m.st, m.st.bytes
    ensures Ready(m)
    ensures St(m) == Run(m.g.strip, m.g.sets, startst, stopst, [])
  {
    hide Closure, WellFormed, Empties;
    m.st.Clear();
    m.st.Set1(startst);
    assert m.st.Members() == {startst as int};
    Step(m.g.strip, m.g.sets, startst, stopst, m.st, NOTHING, m.st);
  }

  /** st := what c leads to from st, together with the states of a fresh start if asked. */
  method Move(m: Match, afresh: bool, c: Ch, startst: nat, stopst: nat)
    requires Ready(m) && Region(m.g, startst, stopst)
    modifies m.st, m.st.bytes, m.tmp, m.tmp.bytes
    ensures Ready(m) && Anew(m) == old(Anew(m))
    ensures St(m) == Closure(m.g.strip, startst, stopst,
              Seeds(m.g.strip, m.g.sets, startst, stopst, old(St(m)), CHAR(c), if afresh then old(Anew(m)) else {}))
  {
    hide Closure, WellFormed, Seeds, StateSet.Members, StateSet.Valid;
    m.tmp.Assign(m.st);
    m.st.Assign(if afresh then m.anew else m.empty);
    Step(m.g.strip, m.g.sets, startst, stopst, m.tmp, CHAR(c), m.st);
  }

  /** The states a fresh start is in. */
  method KeepAnew(m: Match)
    requires Ready(m)
    modifies m.anew, m.anew.bytes
    ensures Ready(m) && Anew(m) == St(m) == old(St(m))
  {
    m.anew.Assign(m.st);
  }

  /** EQ(st, anew) */
  method IsAnew(m: Match) returns (same: bool)
    requires Ready(m)
    ensures same <==> St(m) == Anew(m)
  {
    same := m.st.Equals(m.anew);
  }

  /** EQ(st, empty) */
  method IsDead(m: Match) returns (dead: bool)
    requires Ready(m)
    ensures dead <==> St(m) == {}
  {
    dead := m.st.Equals(m.empty);
  }

  /** ISSET(st, n) */
  method IsIn(m: Match, k: nat) returns (b: bool)
    requires Ready(m) && k < |m.g.strip|
    ensures b <==> k in St(m)
  {
    b := m.st.IsSet(k);
  }

  /** No stretch from start that ends after p and no later than stop is accepted. */
  ghost predicate NoneAfter(g: Guts, text: Text, lo: nat, hi: nat, start: nat, p: int, stop: nat)
    requires Region(g, lo, hi) && start <= stop <= |text|
  {
    forall k :: p < k && start <= k <= stop ==> !Hits(g, text, lo, hi, start, k)
  }

  /** The end of the longest match from start, or -1. */
  ghost predicate LongestMatch(g: Guts, text: Text, lo: nat, hi: nat, start: nat, stop: nat, p: int)
    requires Region(g, lo, hi) && start <= stop <= |text|
  {
    && (p == -1 || (start <= p <= stop && Hits(g, text, lo, hi, start, p)))
    && NoneAfter(g, text, lo, hi, start, p, stop)
  }

  method Slow(m: Match, start: nat, stop: nat, startst: nat, stopst: nat) returns (matchp: int)
    requires Ready(m) && Region(m.g, startst, stopst)
    requires m.beginp <= start <= stop <= m.endp <= |m.text|
    modifies Owned(m)
    ensures Ready(m)
    ensures LongestMatch(m.g, m.text, startst, stopst, start, stop, matchp)
  {
    hide Ready, St, Anew, Closure, WellFormed, Run, After, StateSet.Members, StateSet.Valid, CharAt, CharBefore;
    ghost var strip, sets, text := m.g.strip, m.g.sets, m.text;
    var p := start;
    var c := CharBefore(m, start);
    StartStates(m, startst, stopst);
    matchp := -1;
    assert text[start..start] == [];
    while true
      invariant Ready(m) && start <= p <= stop
      invariant c == CharBefore(m, p)
      invariant St(m) == Run(strip, sets, startst, stopst, text[start..p])
      invariant matchp == -1 || (start <= matchp < p && Hits(m.g, m.text, startst, stopst, start, matchp))
      invariant forall k :: matchp < k < p && start <= k ==> !Hits(m.g, m.text, startst, stopst, start, k)
      decreases stop - p
    {
      var lastc := c;
      c := CharAt(m, p);
      RunClosed(strip, sets, startst, stopst, text[start..p]);
      Boundary(m, lastc, c, startst, stopst);
      var accepted := IsIn(m, stopst);
      if accepted {
        matchp := p;
      }
      var dead := IsDead(m);
      if dead || p == stop {
        if dead { AllDead(m, startst, stopst, start, p, stop); }
        break;
      }
      Move(m, false, m.text[p], startst, stopst);
      CharNext(m, p);
      assert text[start..p + 1] == text[start..p] + [text[p]];
      RunSnoc(strip, sets, startst, stopst, text[start..p], text[p]);
      p := p + 1;
    }
  }

  lemma AllDead(m: Match, lo: nat, hi: nat, start: nat, p: nat, stop: nat)
    requires Region(m.g, lo, hi) && start <= p <= stop <= |m.text|
    requires Run(m.g.strip, m.g.sets, lo, hi, m.text[start..p]) == {}
    ensures NoneAfter(m.g, m.text, lo, hi, start, p, stop)
  {
    forall k | p < k <= stop
      ensures !Hits(m.g, m.text, lo, hi, start, k)
    {
      assert m.text[start..k] == m.text[start..p] + m.text[p..k];
      RunDead(m.g.strip, m.g.sets, lo, hi, m.text[start..p], m.text[p..k]);
    }
  }

  /** Some stretch inside text[a..b] is accepted. */
  ghost predicate HitWithin(g: Guts, text: Text, lo: nat, hi: nat, a: nat, b: nat)
    requires Region(g, lo, hi) && b <= |text|
  {
    exists j, k :: a <= j <= k <= b && Hits(g, text, lo, hi, j, k)
  }

  /** Every attempt begun before p and still under way at p is in states a fresh start is in as well. */
  ghost predicate Cold(g: Guts, text: Text, lo: nat, hi: nat, start: nat, p: nat)
    requires Region(g, lo, hi) && start <= p <= |text|
  {
    forall j :: start <= j <= p ==> Run(g.strip, g.sets, lo, hi, text[j..p]) <= Run(g.strip, g.sets, lo, hi, [])
  }

  /** Of the positions up to p, coldp is the last that is cold. */
  ghost predicate LastCold(g: Guts, text: Text, lo: nat, hi: nat, start: nat, coldp: nat, p: nat)
    requires Region(g, lo, hi) && start <= p <= |text|
  {
    start <= coldp <= p && Cold(g, text, lo, hi, start, coldp) && forall q :: coldp < q <= p ==> !Cold(g, text, lo, hi, start, q)
  }

  /** No accepted stretch ends before p. */
  ghost predicate NoHitBefore(g: Guts, text: Text, lo: nat, hi: nat, start: nat, p: nat)
    requires Region(g, lo, hi) && start <= p <= |text|
  {
    forall j, k :: start <= j <= k < p ==> !Hits(g, text, lo, hi, j, k)
  }

  /**
    Is there a match?  hit tells, and p is where the first one to end ends.  coldp is the last position,
    up to there, at which every attempt under way was in states a fresh start is in too.
   */
  method Fast(m: Match, start: nat, stop: nat, startst: nat, stopst: nat) returns (hit: bool, ghost p: nat)
    requires Ready(m) && Region(m.g, startst, stopst)
    requires m.beginp <= start <= stop <= m.endp <= |m.text|
    modifies Owned(m), m`coldp
    ensures Ready(m)
    ensures start <= m.coldp <= p <= stop
    ensures hit <==> HitWithin(m.g, m.text, startst, stopst, start, stop)
    ensures hit ==> exists j :: m.coldp <= j <= p && Hits(m.g, m.text, startst, stopst, j, p)
    ensures NoHitBefore(m.g, m.text, startst, stopst, start, p)
    ensures LastCold(m.g, m.text, startst, stopst, start, m.coldp, p)
  {
    hide Ready, St, Anew, Closure, WellFormed, Run, After, Search, StateSet.Members, StateSet.Valid, Cold, HitWithin, Hits, CharAt, CharBefore,
      LastCold, NoHitBefore;
    ghost var strip, sets, text := m.g.strip, m.g.sets, m.text;
    var at := start;
    var c := CharBefore(m, start);
    StartStates(m, startst, stopst);
    KeepAnew(m);
    var coldp := start;
    hit := false;
    SearchStart(strip, sets, startst, stopst, text, start);
    NothingYet(m, startst, stopst, start);
    while true
      invariant Ready(m) && start <= coldp <= at <= stop
      invariant c == CharBefore(m, at)
      invariant Anew(m) == Run(strip, sets, startst, stopst, [])
      invariant St(m) == Search(strip, sets, startst, stopst, text, start, at)
      invariant St(m) == Search(strip, sets, startst, stopst, text, coldp, at)
      invariant LastCold(m.g, m.text, startst, stopst, start, coldp, if at == start then start else at - 1)
      invariant NoHitBefore(m.g, m.text, startst, stopst, start, at)
      decreases stop - at
    {
      var lastc := c;
      c := CharAt(m, at);
      var same := IsAnew(m);
      ColdIs(m, startst, stopst, start, at);
      NextCold(m, startst, stopst, start, coldp, at);
      if same {
        coldp := at;
        SearchStart(strip, sets, startst, stopst, text, at);
      }
      SearchClosed(strip, sets, startst, stopst, text, start, at);
      Boundary(m, lastc, c, startst, stopst);
      hit := IsIn(m, stopst);
      if hit || at == stop {
        break;
      }
      Move(m, true, m.text[at], startst, stopst);
      NoHitAt(m, startst, stopst, start, at);
      SearchNext(strip, sets, startst, stopst, text, start, at);
      SearchNext(strip, sets, startst, stopst, text, coldp, at);
      CharNext(m, at);
      at := at + 1;
    }
    Found(m, startst, stopst, start, stop, coldp, at, hit);
    m.coldp := coldp;
    p := at;
  }

  lemma NothingYet(m: Match, lo: nat, hi: nat, start: nat)
    requires Region(m.g, lo, hi) && start <= |m.text|
    ensures NoHitBefore(m.g, m.text, lo, hi, start, start)
    ensures LastCold(m.g, m.text, lo, hi, start, start, start)
  {
    assert m.text[start..start] == [];
  }

  lemma NextCold(m: Match, lo: nat, hi: nat, start: nat, coldp: nat, p: nat)
    requires Region(m.g, lo, hi) && start <= coldp <= p <= |m.text|
    requires LastCold(m.g, m.text, lo, hi, start, coldp, if p == start then start else p - 1)
    ensures LastCold(m.g, m.text, lo, hi, start, if Cold(m.g, m.text, lo, hi, start, p) then p else coldp, p)
  {
    hide Cold;
  }

  /** The search from start stopped at p, at the end of the text or at the first hit. */
  lemma Found(m: Match, lo: nat, hi: nat, start: nat, stop: nat, coldp: nat, p: nat, hit: bool)
    requires Region(m.g, lo, hi) && start <= coldp <= p <= stop <= |m.text|
    requires hit <==> hi in Search(m.g.strip, m.g.sets, lo, hi, m.text, start, p)
    requires hit ==> hi in Search(m.g.strip, m.g.sets, lo, hi, m.text, coldp, p)
    requires !hit ==> p == stop
    requires NoHitBefore(m.g, m.text, lo, hi, start, p)
    ensures hit <==> HitWithin(m.g, m.text, lo, hi, start, stop)
    ensures hit ==> exists j :: coldp <= j <= p && Hits(m.g, m.text, lo, hi, j, p)
  {
    hide WellFormed, Run, Search;
    if hit {
      SearchIsRuns(m.g.strip, m.g.sets, lo, hi, m.text, coldp, p, hi);
      var j :| coldp <= j <= p && hi in Run(m.g.strip, m.g.sets, lo, hi, m.text[j..p]);
      assert Hits(m.g, m.text, lo, hi, j, p);
    } else {
      NoHitAt(m, lo, hi, start, p);
    }
  }

  lemma CharNext(m: Match, p: nat)
    requires m.beginp <= p < m.endp <= |m.text|
    ensures CharAt(m, p) == CharBefore(m, p + 1) == CHAR(m.text[p])
  {
  }

  lemma SearchStart(strip: seq<Sop>, sets: Sets, lo: nat, hi: nat, text: Text, a: nat)
    requires lo <= hi <= |strip| && a <= |text|
    ensures Search(strip, sets, lo, hi, text, a, a) == Run(strip, sets, lo, hi, [])
  {
  }

  lemma SearchNext(strip: seq<Sop>, sets: Sets, lo: nat, hi: nat, text: Text, a: nat, p: nat)
    requires lo <= hi <= |strip| && a <= p < |text|
    ensures Search(strip, sets, lo, hi, text, a, p + 1) ==
            Closure(strip, lo, hi, Seeds(strip, sets, lo, hi, Search(strip, sets, lo, hi, text, a, p), CHAR(text[p]), Run(strip, sets, lo, hi, [])))
  {
    hide Closure, Run, After;
  }

  lemma SearchClosed(strip: seq<Sop>, sets: Sets, lo: nat, hi: nat, text: Text, a: nat, p: nat)
    requires lo <= hi <= |strip| && WellFormed(strip, lo, hi) && a <= p <= |text|
    ensures Closure(strip, lo, hi, Search(strip, sets, lo, hi, text, a, p)) == Search(strip, sets, lo, hi, text, a, p)
  {
    hide Closure, WellFormed, Run, After;
    if a == p {
      RunClosed(strip, sets, lo, hi, []);
    } else {
      var anew := Run(strip, sets, lo, hi, []);
      ClosureIdempotent(strip, lo, hi,
        anew + After(strip, sets, lo, hi, Search(strip, sets, lo, hi, text, a, p - 1), text[p - 1]));
    }
  }

  /** The search is back to the fresh states exactly when the position is cold. */
  lemma ColdIs(m: Match, lo: nat, hi: nat, start: nat, p: nat)
    requires Region(m.g, lo, hi) && start <= p <= |m.text|
    ensures Cold(m.g, m.text, lo, hi, start, p) <==>
            Search(m.g.strip, m.g.sets, lo, hi, m.text, start, p) == Run(m.g.strip, m.g.sets, lo, hi, [])
  {
    hide WellFormed, Run, Search;
    var strip, sets, text := m.g.strip, m.g.sets, m.text;
    var anew := Run(strip, sets, lo, hi, []);
    var all := Search(strip, sets, lo, hi, text, start, p);
    assert text[p..p] == [];
    RunInSearch(strip, sets, lo, hi, text, start, p, p);
    if Cold(m.g, m.text, lo, hi, start, p) {
      forall q | q in all
        ensures q in anew
      {
        SearchIsRuns(strip, sets, lo, hi, text, start, p, q);
      }
    }
    if all == anew {
      forall j | start <= j <= p
        ensures Run(strip, sets, lo, hi, text[j..p]) <= anew
      {
        RunInSearch(strip, sets, lo, hi, text, start, j, p);
      }
    }
  }

  lemma NoHitAt(m: Match, lo: nat, hi: nat, start: nat, p: nat)
    requires Region(m.g, lo, hi) && start <= p <= |m.text|
    requires hi !in Search(m.g.strip, m.g.sets, lo, hi, m.text, start, p)
    requires NoHitBefore(m.g, m.text, lo, hi, start, p)
    ensures p < |m.text| ==> NoHitBefore(m.g, m.text, lo, hi, start, p + 1)
    ensures forall j :: start <= j <= p ==> !Hits(m.g, m.text, lo, hi, j, p)
  {
    hide WellFormed, Run, Search;
    SearchIsRuns(m.g.strip, m.g.sets, lo, hi, m.text, start, p, hi);
  }
}
