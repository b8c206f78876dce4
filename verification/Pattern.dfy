/**
  Extended regular expressions as they are written, and what they mean (section 9.4 of IEEE Std 1003.1,
  Base Definitions): nothing here knows of strips.  The numbers in a tree are those the compiler gives to
  groups and bracket sets, in the order it meets them.
 */
module Pattern {
  import opened Strip
  import opened Language

  const DUPMAX := 255
  const INFINITY := 256

  /** Branches separated by bars. */
  datatype Tree = Only(branch: Branch) | Or(branch: Branch, more: Tree)

  /** Pieces one after the other. */
  datatype Branch = Done | Then(piece: Piece, rest: Branch)

  /** An atom, and how often it is repeated. */
  datatype Piece = Piece(atom: Atom, rep: Rep)

  datatype Atom =
    | Plain(c: Ch)
    | Quoted(c: Ch)
    | Any(no: nat)
    | Bracket(b: Brack, no: nat)
    | Group(no: nat, inner: Tree)
    | EmptyGroup(no: nat)

  datatype Rep = Once | Star | Plus | Opt | Bound(lo: Text, hi: Hi)

  datatype Hi = Exactly | AtLeast | UpTo(hi: Text)

  /** A bracket list: perhaps inverted, perhaps led by ] or -, terms, perhaps a - at the end. */
  datatype Brack = Brack(invert: bool, lead: Text, terms: seq<Term>, dash: bool)

  /** A character or a range; a character is the range from itself to itself, written once. */
  datatype Term = One(c: Ch) | Range(from: Ch, to: Ch)

  // Meaning

  ghost function TermSet(t: Term): set<Ch> {
    match t
    case One(c) => {c}
    case Range(a, b) => set c: Ch | a <= c <= b && InCode(c)
  }

  /** Every byte has a code. */
  predicate InCode(c: Ch) { c as int < 256 }

  ghost function TermsSet(ts: seq<Term>): set<Ch> {
    if ts == [] then {} else TermsSet(ts[..|ts| - 1]) + TermSet(ts[|ts| - 1])
  }

  ghost function LeadSet(lead: Text): set<Ch> {
    set c | c in lead
  }

  ghost function Listed(b: Brack): set<Ch> {
    LeadSet(b.lead) + TermsSet(b.terms) + if b.dash then {'-'} else {}
  }

  /** What a bracket list stands for; with REG_NEWLINE an inverted one never stands for a newline. */
  ghost function BrackSet(newline: bool, b: Brack): set<Ch> {
    if b.invert then Others(newline, Listed(b)) else Listed(b)
  }

  ghost function Others(newline: bool, s: set<Ch>): set<Ch> {
    set c: Ch | c !in s && !(newline && c == '\n')
  }

  /** The number a string of digits stands for. */
  function Number(digits: Text): nat {
    if digits == [] then 0 else Number(digits[..|digits| - 1]) * 10 + DigitValue(digits[|digits| - 1])
  }

  function DigitValue(c: Ch): nat {
    if '0' <= c <= '9' then c as int - '0' as int else 0
  }

  /** How often at least and at most; INFINITY is no limit. */
  function From(r: Rep): nat {
    match r
    case Once => 1
    case Star => 0
    case Plus => 1
    case Opt => 0
    case Bound(lo, _) => Number(lo)
  }

  function To(r: Rep): nat {
    match r
    case Once => 1
    case Star => INFINITY
    case Plus => INFINITY
    case Opt => 1
    case Bound(lo, hi) => match hi case Exactly => Number(lo) case AtLeast => INFINITY case UpTo(h) => Number(h)
  }

  ghost predicate TreeMeans(newline: bool, t: Tree, w: Text)
    decreases t, 0
  {
    BranchMeans(newline, t.branch, w) || (t.Or? && TreeMeans(newline, t.more, w))
  }

  ghost predicate BranchMeans(newline: bool, b: Branch, w: Text)
    decreases b, 0
  {
    match b
    case Done => w == []
    case Then(p, rest) => exists i :: 0 <= i <= |w| && PieceMeans(newline, p, w[..i]) && BranchMeans(newline, rest, w[i..])
  }

  ghost predicate PieceMeans(newline: bool, p: Piece, w: Text)
    decreases p, 0
  {
    exists k: nat :: From(p.rep) <= k && (To(p.rep) == INFINITY || k <= To(p.rep)) && AtomPower(newline, p.atom, k, w)
  }

  /** w is k texts of the atom, one after the other. */
  ghost predicate AtomPower(newline: bool, a: Atom, k: nat, w: Text)
    decreases a, k + 1
  {
    if k == 0 then w == []
    else exists i :: 0 <= i <= |w| && AtomPower(newline, a, k - 1, w[..i]) && AtomMeans(newline, a, w[i..])
  }

  ghost predicate AtomMeans(newline: bool, a: Atom, w: Text)
    decreases a, 0
  {
    match a
    case Plain(c) => w == [c]
    case Quoted(c) => w == [c]
    case Any(_) => |w| == 1 && !(newline && w[0] == '\n')
    case Bracket(b, _) => |w| == 1 && w[0] in BrackSet(newline, b)
    case Group(_, t) => TreeMeans(newline, t, w)
    case EmptyGroup(_) => w == []
  }

  // The expression the compiler lays out

  ghost function TreeRe(newline: bool, t: Tree): Re {
    match t
    case Only(b) => BranchRe(newline, b)
    case Or(b, more) => Cons(Choice(BranchRe(newline, b), TreeAlts(newline, more)), Nil)
  }

  ghost function TreeAlts(newline: bool, t: Tree): Alts {
    match t
    case Only(b) => Last(BranchRe(newline, b))
    case Or(b, more) => More(BranchRe(newline, b), TreeAlts(newline, more))
  }

  ghost function BranchRe(newline: bool, b: Branch): Re {
    match b
    case Done => Nil
    case Then(p, rest) => Append(PieceRe(newline, p), BranchRe(newline, rest))
  }

  ghost function PieceRe(newline: bool, p: Piece): Re {
    RepRe(AtomRe(newline, p.atom), p.rep)
  }

  ghost function AtomRe(newline: bool, a: Atom): Re {
    match a
    case Plain(c) => Cons(Lit(c), Nil)
    case Quoted(c) => Cons(Lit(c), Nil)
    case Any(no) => Cons(if newline then SetNode(Others(true, {'\n'}), no) else Dot, Nil)
    case Bracket(b, no) => Cons(SetNode(BrackSet(newline, b), no), Nil)
    case Group(no, t) => Cons(Open(no), Append(TreeRe(newline, t), Cons(Shut(no), Nil)))
    case EmptyGroup(no) => Cons(Open(no), Cons(Shut(no), Nil))
  }

  /** A set of one member is compiled as that character. */
  ghost function SetNode(s: set<Ch>, no: nat): Node {
    if |s| == 1 then Lit(TheOne(s)) else Set(no)
  }

  ghost function TheOne(s: set<Ch>): (c: Ch)
    requires |s| == 1
    ensures s == {c}
  {
    var c :| c in s;
    assert |s - {c}| == 0;
    c
  }

  function RepRe(x: Re, r: Rep): Re {
    match r
    case Once => x
    case Star => Cons(Maybe(Cons(Loop(x), Nil)), Nil)
    case Plus => Cons(Loop(x), Nil)
    case Opt => Cons(Optional(x), Nil)
    case Bound(_, _) => RepeatRe(x, From(r), To(r))
  }

  /** y? is laid out as (y|). */
  function Optional(x: Re): Node {
    Choice(x, Last(Nil))
  }

  /** x repeated between from and to times, to being INFINITY for no limit. */
  function RepeatRe(x: Re, from: nat, to: nat): Re
    decreases if from == 0 then 1 else 0, from + to
  {
    if to == 0 then Nil
    else if from == 0 then Cons(Optional(RepeatRe(x, 1, to)), Nil)
    else if from == 1 then
      if to == 1 then x
      else if to == INFINITY then Cons(Loop(x), Nil)
      else Cons(Optional(x), RepeatRe(x, 1, to - 1))
    else if to == INFINITY then Append(x, RepeatRe(x, from - 1, INFINITY))
    else Append(x, RepeatRe(x, from - 1, to - 1))
  }

  lemma RepeatLens(x: Re, y: Re)
    ensures Len(Cons(Optional(x), y)) == Len(x) + 4 + Len(y)
    ensures Len(Cons(Loop(x), Nil)) == Len(x) + 2
  {
    assert AltsLen(Last(Nil)) == 2;
    assert NodeLen(Optional(x)) == Len(x) + 4;
  }

  /** The operators a bounded repetition of an operand of n operators takes. */
  function RepeatSize(n: nat, from: nat, to: nat): int {
    if to < INFINITY then to * n + 4 * (to - from)
    else if from >= 1 then from * n + 2
    else n + 6
  }

  lemma RepeatSizeSteps(n: nat, from: nat, to: nat)
    ensures RepeatSize(n, 0, 0) == 0 && RepeatSize(n, 1, 1) == n && RepeatSize(n, 1, INFINITY) == n + 2
    ensures 1 <= to <= INFINITY ==> RepeatSize(n, 0, to) == 4 + RepeatSize(n, 1, to)
    ensures 1 < to < INFINITY ==> RepeatSize(n, 1, to) == n + 4 + RepeatSize(n, 1, to - 1)
    ensures 1 < from && to == INFINITY ==> RepeatSize(n, from, to) == n + RepeatSize(n, from - 1, to)
    ensures 1 < from <= to < INFINITY ==> RepeatSize(n, from, to) == n + RepeatSize(n, from - 1, to - 1)
  {
    assert to * n == (to - 1) * n + n;
    assert from * n == (from - 1) * n + n;
  }

  lemma {:induction false} RepeatLen(x: Re, from: nat, to: nat)
    requires from <= to <= INFINITY && from < INFINITY
    ensures Len(RepeatRe(x, from, to)) == RepeatSize(Len(x), from, to)
    decreases if from == 0 then 1 else 0, from + to
  {
    hide NodeLen, Optional, RepeatSize, Len;
    RepeatSizeSteps(Len(x), from, to);
    NilLen();
    var to' := if to == INFINITY then to else to - 1;
    if to == 0 {
    } else if from == 0 {
      RepeatLen(x, 1, to);
      RepeatLens(RepeatRe(x, 1, to), Nil);
    } else if from == 1 {
      RepeatLens(x, if to == 1 then Nil else RepeatRe(x, 1, to'));
      if to != 1 && to != INFINITY { RepeatLen(x, 1, to'); }
    } else {
      RepeatLen(x, from - 1, to');
    }
  }

  lemma NilLen()
    ensures Len(Nil) == 0
  {
  }

  /** w is between from and to texts of x, one after the other. */
  ghost predicate Repeated(sets: Sets, x: Re, from: nat, to: nat, w: Text) {
    exists k: nat :: Times(from, to, k) && Power(sets, x, k, w)
  }

  predicate Times(from: nat, to: nat, k: nat) {
    from <= k && (to == INFINITY || k <= to)
  }

  lemma OptionalMatches(sets: Sets, x: Re, w: Text)
    ensures MatchesNode(sets, Optional(x), w) <==> Matches(sets, x, w) || w == []
  {
    hide Matches;
    MatchesNil(sets, w);
  }

  /** Bounded repetition is laid out as an expression for just the texts it means. */
  lemma {:induction false} RepeatMatches(sets: Sets, x: Re, from: nat, to: nat, w: Text)
    requires from <= to <= INFINITY && from < INFINITY
    ensures Matches(sets, RepeatRe(x, from, to), w) <==> Repeated(sets, x, from, to, w)
    decreases if from == 0 then 1 else 0, from + to
  {
    hide Matches, MatchesNode, Power, Optional, Repeated;
    if to == 0 {
      MatchesNil(sets, w);
      NoTimes(sets, x, w);
    } else if from == 0 {
      RepeatMatches(sets, x, 1, to, w);
      OptionalMatches(sets, RepeatRe(x, 1, to), w);
      MatchesOne(sets, Optional(RepeatRe(x, 1, to)), w);
      PerhapsNone(sets, x, to, w);
    } else if from == 1 && to == 1 {
      Once1(sets, x, w);
    } else if from == 1 && to == INFINITY {
      MatchesOne(sets, Loop(x), w);
      AtLeastOnce(sets, x, w);
    } else if from == 1 {
      var y := RepeatRe(x, 1, to - 1);
      forall v
        ensures Matches(sets, y, v) <==> Repeated(sets, x, 1, to - 1, v)
      {
        RepeatMatches(sets, x, 1, to - 1, v);
      }
      OnceMore(sets, x, y, to - 1, w);
    } else {
      var to' := if to == INFINITY then to else to - 1;
      var y := RepeatRe(x, from - 1, to');
      forall v
        ensures Matches(sets, y, v) <==> Repeated(sets, x, from - 1, to', v)
      {
        RepeatMatches(sets, x, from - 1, to', v);
      }
      AlsoFirst(sets, x, y, from - 1, to', w);
    }
  }

  lemma NoTimes(sets: Sets, x: Re, w: Text)
    ensures Repeated(sets, x, 0, 0, w) <==> w == []
  {
    hide Matches;
    if w == [] { assert Times(0, 0, 0) && Power(sets, x, 0, w); }
  }

  lemma PerhapsNone(sets: Sets, x: Re, to: nat, w: Text)
    requires to >= 1
    ensures Repeated(sets, x, 0, to, w) <==> w == [] || Repeated(sets, x, 1, to, w)
  {
    hide Matches;
    if w == [] { assert Times(0, to, 0) && Power(sets, x, 0, w); }
    if Repeated(sets, x, 0, to, w) {
      var k: nat :| Times(0, to, k) && Power(sets, x, k, w);
      if k > 0 { assert Times(1, to, k); }
    }
    if Repeated(sets, x, 1, to, w) {
      var k: nat :| Times(1, to, k) && Power(sets, x, k, w);
      assert Times(0, to, k);
    }
  }

  lemma Once1(sets: Sets, x: Re, w: Text)
    ensures Repeated(sets, x, 1, 1, w) <==> Matches(sets, x, w)
  {
    hide Matches, Power;
    PowerOne(sets, x, w);
    if Matches(sets, x, w) { assert Times(1, 1, 1); }
  }

  lemma AtLeastOnce(sets: Sets, x: Re, w: Text)
    ensures Repeated(sets, x, 1, INFINITY, w) <==> MatchesNode(sets, Loop(x), w)
  {
    hide Matches;
    if MatchesNode(sets, Loop(x), w) {
      var k := LoopTimes(sets, Loop(x), w);
      assert Times(1, INFINITY, k);
    }
  }

  /** (x|) before one to n texts of x. */
  lemma OnceMore(sets: Sets, x: Re, y: Re, n: nat, w: Text)
    requires 1 <= n < INFINITY - 1
    requires forall v :: Matches(sets, y, v) <==> Repeated(sets, x, 1, n, v)
    ensures Matches(sets, Cons(Optional(x), y), w) <==> Repeated(sets, x, 1, n + 1, w)
  {
    hide Matches, MatchesNode, Power, Optional;
    if Matches(sets, Cons(Optional(x), y), w) {
      var i := MatchesUncons(sets, Optional(x), y, w);
      OptionalMatches(sets, x, w[..i]);
      var k: nat :| Times(1, n, k) && Power(sets, x, k, w[i..]);
      assert w == w[..i] + w[i..];
      if w[..i] == [] {
        assert w == w[i..];
        assert Times(1, n + 1, k);
      } else {
        PowerOne(sets, x, w[..i]);
        PowerAdd(sets, x, 1, k, w[..i], w[i..]);
        assert Times(1, n + 1, 1 + k);
      }
    }
    if Repeated(sets, x, 1, n + 1, w) {
      var k: nat :| Times(1, n + 1, k) && Power(sets, x, k, w);
      OnceMoreBack(sets, x, y, n, k, w);
    }
  }

  lemma OnceMoreBack(sets: Sets, x: Re, y: Re, n: nat, k: nat, w: Text)
    requires 1 <= n < INFINITY - 1 && 1 <= k <= n + 1 && Power(sets, x, k, w)
    requires forall v :: Matches(sets, y, v) <==> Repeated(sets, x, 1, n, v)
    ensures Matches(sets, Cons(Optional(x), y), w)
  {
    hide Matches, MatchesNode, Power, Optional;
    if k <= n {
      assert Times(1, n, k);
      OptionalMatches(sets, x, []);
      MatchesCons(sets, Optional(x), y, [], w);
      assert [] + w == w;
    } else {
      var i := PowerSplit(sets, x, 1, k - 1, w);
      PowerOne(sets, x, w[..i]);
      OptionalMatches(sets, x, w[..i]);
      assert Times(1, n, k - 1);
      MatchesCons(sets, Optional(x), y, w[..i], w[i..]);
      assert w == w[..i] + w[i..];
    }
  }

  /** x before one repetition fewer. */
  lemma AlsoFirst(sets: Sets, x: Re, y: Re, from: nat, to: nat, w: Text)
    requires from <= to <= INFINITY && to != INFINITY - 1
    requires forall v :: Matches(sets, y, v) <==> Repeated(sets, x, from, to, v)
    ensures Matches(sets, Append(x, y), w) <==> Repeated(sets, x, from + 1, if to == INFINITY then to else to + 1, w)
  {
    hide Matches, MatchesNode, Power;
    var to' := if to == INFINITY then to else to + 1;
    if Matches(sets, Append(x, y), w) {
      var i := MatchesSplit(sets, x, y, w);
      var k: nat :| Times(from, to, k) && Power(sets, x, k, w[i..]);
      PowerOne(sets, x, w[..i]);
      PowerAdd(sets, x, 1, k, w[..i], w[i..]);
      assert w == w[..i] + w[i..];
      assert Times(from + 1, to', 1 + k);
    }
    if Repeated(sets, x, from + 1, to', w) {
      var k: nat :| Times(from + 1, to', k) && Power(sets, x, k, w);
      var i := PowerSplit(sets, x, 1, k - 1, w);
      PowerOne(sets, x, w[..i]);
      assert Times(from, to, k - 1);
      MatchesAppend(sets, x, y, w[..i], w[i..]);
      assert w == w[..i] + w[i..];
    }
  }

  // The layout means what the pattern means

  /** The numbers in a tree fit the sets. */
  ghost predicate Numbered(newline: bool, sets: Sets, t: Tree)
    decreases t
  {
    NumberedBranch(newline, sets, t.branch) && (t.Or? ==> Numbered(newline, sets, t.more))
  }

  ghost predicate NumberedBranch(newline: bool, sets: Sets, b: Branch)
    decreases b
  {
    b.Then? ==> NumberedAtom(newline, sets, b.piece.atom) && Sensible(b.piece.rep) && NumberedBranch(newline, sets, b.rest)
  }

  ghost predicate NumberedAtom(newline: bool, sets: Sets, a: Atom)
    decreases a
  {
    match a
    case Any(no) => newline ==> SetIs(sets, Others(true, {'\n'}), no)
    case Bracket(b, no) => SetIs(sets, BrackSet(newline, b), no)
    case Group(no, t) => Numbered(newline, sets, t)
    case _ => true
  }

  ghost predicate SetIs(sets: Sets, s: set<Ch>, no: nat) {
    |s| == 1 || (no < |sets| && sets[no] == s)
  }

  /** The bounds are numbers allowed, in order. */
  predicate Sensible(r: Rep) {
    r.Bound? ==> From(r) <= DUPMAX && (r.hi.UpTo? ==> From(r) <= To(r) <= DUPMAX)
  }

  lemma SetNodeMatches(sets: Sets, s: set<Ch>, no: nat, w: Text)
    requires SetIs(sets, s, no)
    ensures Matches(sets, Cons(SetNode(s, no), Nil), w) <==> |w| == 1 && w[0] in s
  {
    hide Matches;
    MatchesOne(sets, SetNode(s, no), w);
  }

  lemma {:induction false} AtomMatches(newline: bool, sets: Sets, a: Atom, w: Text)
    requires NumberedAtom(newline, sets, a)
    ensures Matches(sets, AtomRe(newline, a), w) <==> AtomMeans(newline, a, w)
    decreases a, 1, 0
  {
    hide Matches, SetNode, SetIs, TreeRe, TreeMeans, Numbered, BrackSet, Others;
    match a
    case Plain(c) => MatchesOne(sets, Lit(c), w);
    case Quoted(c) => MatchesOne(sets, Lit(c), w);
    case Any(no) => AnyMatches(newline, sets, no, w);
    case Bracket(b, no) => SetNodeMatches(sets, BrackSet(newline, b), no, w);
    case Group(no, t) =>
      TreeMatches(newline, sets, t, w);
      GroupMatches(sets, no, TreeRe(newline, t), w);
    case EmptyGroup(no) =>
      GroupMatches(sets, no, Nil, w);
      MatchesNil(sets, w);
      assert Append(Nil, Cons(Shut(no), Nil)) == Cons(Shut(no), Nil);
  }

  lemma AnyMatches(newline: bool, sets: Sets, no: nat, w: Text)
    requires NumberedAtom(newline, sets, Any(no))
    ensures Matches(sets, AtomRe(newline, Any(no)), w) <==> AtomMeans(newline, Any(no), w)
  {
    hide Matches, SetNode, SetIs;
    if newline {
      SetNodeMatches(sets, Others(true, {'\n'}), no, w);
    } else {
      MatchesOne(sets, Dot, w);
    }
  }

  lemma GroupMatches(sets: Sets, no: nat, x: Re, w: Text)
    ensures Matches(sets, Cons(Open(no), Append(x, Cons(Shut(no), Nil))), w) <==> Matches(sets, x, w)
  {
    hide Matches;
    var y := Append(x, Cons(Shut(no), Nil));
    if Matches(sets, Cons(Open(no), y), w) {
      var i := MatchesUncons(sets, Open(no), y, w);
      var j := MatchesSplit(sets, x, Cons(Shut(no), Nil), w[i..]);
      MatchesOne(sets, Shut(no), w[i..][j..]);
      assert w[i..][..j] == w;
    }
    if Matches(sets, x, w) {
      MatchesOne(sets, Shut(no), []);
      MatchesAppend(sets, x, Cons(Shut(no), Nil), w, []);
      MatchesCons(sets, Open(no), y, [], w + []);
      assert [] + (w + []) == w;
    }
  }

  lemma {:induction false} PowerMatches(newline: bool, sets: Sets, a: Atom, k: nat, w: Text)
    requires NumberedAtom(newline, sets, a)
    ensures Power(sets, AtomRe(newline, a), k, w) <==> AtomPower(newline, a, k, w)
    decreases a, 2, k
  {
    hide Matches, AtomRe, AtomMeans, NumberedAtom;
    if k > 0 {
      forall i | 0 <= i <= |w|
        ensures Power(sets, AtomRe(newline, a), k - 1, w[..i]) <==> AtomPower(newline, a, k - 1, w[..i])
        ensures Matches(sets, AtomRe(newline, a), w[i..]) <==> AtomMeans(newline, a, w[i..])
      {
        PowerMatches(newline, sets, a, k - 1, w[..i]);
        AtomMatches(newline, sets, a, w[i..]);
      }
    }
  }

  lemma {:induction false} PieceMatches(newline: bool, sets: Sets, p: Piece, w: Text)
    requires NumberedAtom(newline, sets, p.atom) && Sensible(p.rep)
    ensures Matches(sets, PieceRe(newline, p), w) <==> PieceMeans(newline, p, w)
    decreases p, 3, 0
  {
    hide Matches, AtomRe, AtomPower, NumberedAtom, Power, RepRe, From, To;
    var x := AtomRe(newline, p.atom);
    RepMatches(sets, x, p.rep, w);
    forall k: nat
      ensures Power(sets, x, k, w) <==> AtomPower(newline, p.atom, k, w)
    {
      PowerMatches(newline, sets, p.atom, k, w);
    }
  }

  lemma RepMatches(sets: Sets, x: Re, r: Rep, w: Text)
    requires Sensible(r)
    ensures Matches(sets, RepRe(x, r), w) <==> Repeated(sets, x, From(r), To(r), w)
  {
    hide Matches, Power, RepeatRe, Repeated, Number;
    match r
    case Once => Once1(sets, x, w);
    case Star =>
      StarMatches(sets, x, w);
    case Plus =>
      MatchesOne(sets, Loop(x), w);
      AtLeastOnce(sets, x, w);
    case Opt =>
      MatchesOne(sets, Optional(x), w);
      OptionalMatches(sets, x, w);
      Once1(sets, x, w);
      PerhapsNone(sets, x, 1, w);
    case Bound(_, _) => RepeatMatches(sets, x, From(r), To(r), w);
  }

  /** x* is a bypassed loop. */
  lemma StarMatches(sets: Sets, x: Re, w: Text)
    ensures Matches(sets, RepRe(x, Star), w) <==> Repeated(sets, x, 0, INFINITY, w)
  {
    hide Matches, Power, Repeated;
    MatchesOne(sets, Maybe(Cons(Loop(x), Nil)), w);
    MatchesOne(sets, Loop(x), w);
    AtLeastOnce(sets, x, w);
    PerhapsNone(sets, x, INFINITY, w);
  }

  lemma {:induction false} BranchMatches(newline: bool, sets: Sets, b: Branch, w: Text)
    requires NumberedBranch(newline, sets, b)
    ensures Matches(sets, BranchRe(newline, b), w) <==> BranchMeans(newline, b, w)
    decreases b, 1, 0
  {
    hide Matches, PieceRe, PieceMeans, NumberedAtom, Sensible;
    match b
    case Done => MatchesNil(sets, w);
    case Then(p, rest) =>
      forall u
        ensures Matches(sets, PieceRe(newline, p), u) <==> PieceMeans(newline, p, u)
      {
        PieceMatches(newline, sets, p, u);
      }
      forall v | |v| <= |w|
        ensures Matches(sets, BranchRe(newline, rest), v) <==> BranchMeans(newline, rest, v)
      {
        BranchMatches(newline, sets, rest, v);
      }
      if Matches(sets, BranchRe(newline, b), w) {
        var i := MatchesSplit(sets, PieceRe(newline, p), BranchRe(newline, rest), w);
        assert PieceMeans(newline, p, w[..i]) && BranchMeans(newline, rest, w[i..]);
      }
      if BranchMeans(newline, b, w) {
        var i :| 0 <= i <= |w| && PieceMeans(newline, p, w[..i]) && BranchMeans(newline, rest, w[i..]);
        MatchesAppend(sets, PieceRe(newline, p), BranchRe(newline, rest), w[..i], w[i..]);
        assert w[..i] + w[i..] == w;
      }
  }

  /** The expression laid out for a pattern matches just the texts the pattern means. */
  lemma {:induction false} TreeMatches(newline: bool, sets: Sets, t: Tree, w: Text)
    requires Numbered(newline, sets, t)
    ensures Matches(sets, TreeRe(newline, t), w) <==> TreeMeans(newline, t, w)
    decreases t, 1, 0
  {
    hide Matches, BranchRe, BranchMeans, NumberedBranch;
    BranchMatches(newline, sets, t.branch, w);
    if t.Or? {
      MatchesOne(sets, Choice(BranchRe(newline, t.branch), TreeAlts(newline, t.more)), w);
      AltsMatches(newline, sets, t.more, w);
    }
  }

  lemma {:induction false} AltsMatches(newline: bool, sets: Sets, t: Tree, w: Text)
    requires Numbered(newline, sets, t)
    ensures MatchesAlts(sets, TreeAlts(newline, t), w) <==> TreeMeans(newline, t, w)
    decreases t, 1, 0
  {
    hide Matches, BranchRe, BranchMeans, NumberedBranch;
    BranchMatches(newline, sets, t.branch, w);
    if t.Or? { AltsMatches(newline, sets, t.more, w); }
  }
}
