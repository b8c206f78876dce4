/**
  A pattern has one reading: two trees that are written the same are the same but for the numbers in
  them, and mean the same.
 */
module Unambiguous {
  import opened Strip
  import opened Pattern
  import opened Spelling
  import opened Grammar
  import B = Brackets
  import R = Repetition
  import C = Regcomp

  // The same but for numbers

  function Bare(t: Tree): Tree {
    match t
    case Only(b) => Only(BareBranch(b))
    case Or(b, more) => Or(BareBranch(b), Bare(more))
  }

  function BareBranch(b: Branch): Branch {
    match b
    case Done => Done
    case Then(p, rest) => Then(Piece(BareAtom(p.atom), p.rep), BareBranch(rest))
  }

  function BareAtom(a: Atom): Atom {
    match a
    case Plain(c) => Plain(c)
    case Quoted(c) => Quoted(c)
    case Any(_) => Any(0)
    case Bracket(b, _) => Bracket(b, 0)
    case Group(_, t) => Group(0, Bare(t))
    case EmptyGroup(_) => EmptyGroup(0)
  }

  lemma {:induction false} BareMeans(newline: bool, t: Tree, w: Text)
    ensures TreeMeans(newline, Bare(t), w) <==> TreeMeans(newline, t, w)
    decreases t, 0, 0
  {
    hide BranchMeans, BareBranch;
    BareBranchMeans(newline, t.branch, w);
    if t.Or? { BareMeans(newline, t.more, w); }
  }

  lemma {:induction false} BareBranchMeans(newline: bool, b: Branch, w: Text)
    ensures BranchMeans(newline, BareBranch(b), w) <==> BranchMeans(newline, b, w)
    decreases b, 0, 0
  {
    hide AtomPower, From, To, BareAtom;
    if b.Then? {
      forall v
        ensures BranchMeans(newline, BareBranch(b.rest), v) <==> BranchMeans(newline, b.rest, v)
      {
        BareBranchMeans(newline, b.rest, v);
      }
      forall k: nat, v
        ensures AtomPower(newline, BareAtom(b.piece.atom), k, v) <==> AtomPower(newline, b.piece.atom, k, v)
      {
        BarePower(newline, b.piece.atom, k, v);
      }
      BarePiece(newline, b.piece);
    }
  }

  lemma BarePiece(newline: bool, p: Piece)
    requires forall k: nat, v :: AtomPower(newline, BareAtom(p.atom), k, v) <==> AtomPower(newline, p.atom, k, v)
    ensures forall v :: PieceMeans(newline, Piece(BareAtom(p.atom), p.rep), v) <==> PieceMeans(newline, p, v)
  {
    hide AtomPower, From, To, BareAtom;
  }

  lemma {:induction false} BarePower(newline: bool, a: Atom, k: nat, w: Text)
    ensures AtomPower(newline, BareAtom(a), k, w) <==> AtomPower(newline, a, k, w)
    decreases a, 2, k
  {
    hide AtomMeans, BareAtom;
    if k > 0 {
      forall i | 0 <= i <= |w|
        ensures AtomPower(newline, BareAtom(a), k - 1, w[..i]) <==> AtomPower(newline, a, k - 1, w[..i])
        ensures AtomMeans(newline, BareAtom(a), w[i..]) <==> AtomMeans(newline, a, w[i..])
      {
        BarePower(newline, a, k - 1, w[..i]);
        BareAtomMeans(newline, a, w[i..]);
      }
    }
  }

  lemma {:induction false} BareAtomMeans(newline: bool, a: Atom, w: Text)
    ensures AtomMeans(newline, BareAtom(a), w) <==> AtomMeans(newline, a, w)
    decreases a, 1, 0
  {
    hide TreeMeans, BrackSet;
    if a.Group? { BareMeans(newline, a.inner, w); }
  }

  // Bracket lists

  lemma SameTerm(t: Term, f: Text, u: Term, g: Text)
    requires SpellTerm(t) + f == SpellTerm(u) + g && TermOk(t, f) && TermOk(u, g)
    ensures t == u && f == g
  {
    hide TermOk;
    var s := SpellTerm(t) + f;
    B.TermDue(s, t, f);
    B.TermDue(s, u, g);
    if t.Range? {
      assert s[0] == t.from == u.from && s[2] == t.to == u.to;
    } else {
      assert s[0] == t.c == u.c;
    }
  }

  lemma {:induction false} SameTerms(ts: seq<Term>, d: bool, f: Text, us: seq<Term>, e: bool, g: Text)
    requires SpellTerms(ts) + (SpellEnd(d) + f) == SpellTerms(us) + (SpellEnd(e) + g)
    requires TermsOk(ts, SpellEnd(d) + f) && TermsOk(us, SpellEnd(e) + g)
    ensures ts == us && SpellEnd(d) + f == SpellEnd(e) + g
    decreases |ts|
  {
    hide SpellTerm, SpellTerms, TermOk, TermsOk;
    var end, end' := SpellEnd(d) + f, SpellEnd(e) + g;
    var s := SpellTerms(ts) + end;
    B.NoTerms(end);
    B.NoTerms(end');
    if ListEnds(s) {
      B.LastTerm(s, ts, d, f);
      B.LastTerm(s, us, e, g);
      NoTermsLeft(ts, end);
      NoTermsLeft(us, end');
    } else {
      TextBegins(ts, end);
      B.NextTerm(s, ts, d, f);
      B.NextTerm(s, us, e, g);
      SameTerm(ts[0], SpellTerms(ts[1..]) + end, us[0], SpellTerms(us[1..]) + end');
      SameTerms(ts[1..], d, f, us[1..], e, g);
      assert ts == [ts[0]] + ts[1..] && us == [us[0]] + us[1..];
    }
  }

  predicate ListEnds(s: Text) {
    s != [] && (s[0] == ']' || (|s| > 1 && s[0] == '-' && s[1] == ']'))
  }

  lemma TextBegins(ts: seq<Term>, end: Text)
    requires end != []
    ensures SpellTerms(ts) + end != []
  {
  }

  lemma NoTermsLeft(ts: seq<Term>, end: Text)
    requires SpellTerms(ts) + end == end
    ensures ts == []
  {
    hide SpellTerm;
    assert |SpellTerms(ts)| == 0;
  }

  lemma SameBrack(b: Brack, f: Text, c: Brack, g: Text)
    requires SpellBrack(b) + f == SpellBrack(c) + g && BrackOk(b, f) && BrackOk(c, g)
    ensures b == c && f == g
  {
    hide SpellTerms, TermsOk, SpellEnd, LeadlessOk;
    var s, r := SpellBrack(b) + f, SpellTerms(b.terms) + (SpellEnd(b.dash) + f);
    BrackLead(b, f);
    B.LeadDue(s, b.invert, b.lead, r, c, g);
    SameTerms(b.terms, b.dash, f, c.terms, c.dash, g);
    SameEnds(b.dash, f, c.dash, g);
  }

  lemma SameEnds(d: bool, f: Text, e: bool, g: Text)
    requires SpellEnd(d) + f == SpellEnd(e) + g
    ensures d == e && f == g
  {
    B.SameEnd(d, f, e, g);
    assert (SpellEnd(d) + f)[0] == (SpellEnd(e) + g)[0];
  }

  lemma BrackLead(b: Brack, f: Text)
    requires BrackOk(b, f)
    ensures B.LeadIs(SpellBrack(b) + f, b.invert, b.lead, SpellTerms(b.terms) + (SpellEnd(b.dash) + f))
  {
    hide SpellTerms, TermsOk, SpellEnd;
    var r := SpellTerms(b.terms) + (SpellEnd(b.dash) + f);
    B.BrackAssociate(b, f);
    Associate(SpellInvert(b.invert), b.lead, r);
    if !b.invert { assert SpellBrack(b) + f == b.lead + r; }
    if b.lead == [] { assert b.lead + r == r; }
  }

  // Repetition

  lemma SameDigits(d: Text, f: Text, e: Text, g: Text)
    requires d + f == e + g && AllDigits(d) && AllDigits(e) && R.NoDigit(f) && R.NoDigit(g)
    ensures d == e && f == g
  {
    R.DigitDue(d, f, e, g);
    R.DigitDue(e, g, d, f);
    B.Cancel(d, f, g);
  }

  lemma SameHi(h: Hi, f: Text, i: Hi, g: Text)
    requires SpellHi(h) + f == SpellHi(i) + g && Begins(f, '}') && Begins(g, '}')
    requires (h.UpTo? ==> Digits(h.hi)) && (i.UpTo? ==> Digits(i.hi))
    ensures h == i && f == g
  {
    hide SpellHi;
    var s := SpellHi(h) + f;
    R.UpperDue(s, h, f);
    R.UpperDue(s, i, g);
    if h.UpTo? { SameDigits(h.hi, f, i.hi, g); }
  }

  lemma SameRep(r: Rep, f: Text, q: Rep, g: Text)
    requires SpellRep(r) + f == SpellRep(q) + g && RepOk(r, f) && RepOk(q, g)
    ensures r == q && f == g
  {
    hide SpellRep, Sensible, Repeats;
    var s := SpellRep(r) + f;
    R.RepBegins(s, r, f);
    R.RepBegins(s, q, g);
    if r.Bound? {
      var f', g' := ['}'] + f, ['}'] + g;
      R.BoundSpelling(r.lo, r.hi, f);
      R.BoundSpelling(q.lo, q.hi, g);
      B.Cancel(['{'], r.lo + (SpellHi(r.hi) + f'), q.lo + (SpellHi(q.hi) + g'));
      R.HiBegins(r.hi, f');
      R.HiBegins(q.hi, g');
      SameDigits(r.lo, SpellHi(r.hi) + f', q.lo, SpellHi(q.hi) + g');
      SameHi(r.hi, f', q.hi, g');
      B.Cancel(['}'], f, g);
    }
  }

  // Expressions

  predicate TreeStops(f: Text) {
    f != [] ==> f[0] == ')'
  }

  predicate BranchStops(f: Text) {
    f != [] ==> f[0] == ')' || f[0] == '|'
  }

  lemma {:induction false} SameAtom(a: Atom, f: Text, b: Atom, g: Text)
    requires SpellAtom(a) + f == SpellAtom(b) + g && AtomOk(a, f) && AtomOk(b, g)
    ensures BareAtom(a) == BareAtom(b) && f == g
    decreases a, 0
  {
    hide SpellAtom, AtomOk, SpellTree, SpellBrack, TreeOk, BrackOk, Bare;
    var s := SpellAtom(a) + f;
    C.AtomDue(s, a, f);
    C.AtomDue(s, b, g);
    assert s == [s[0]] + s[1..];
    if s[0] == '(' {
      C.GroupDue(s, s[1..], a, f);
      C.GroupDue(s, s[1..], b, g);
      if a.Group? { SameTree(a.inner, [')'] + f, b.inner, [')'] + g); }
      B.Cancel([')'], f, g);
    } else {
      C.SimpleDue(s, s[0], s[1..], a, f);
      C.SimpleDue(s, s[0], s[1..], b, g);
      SameSimple(s, a, f, b, g);
    }
  }

  lemma SameSimple(s: Text, a: Atom, f: Text, b: Atom, g: Text)
    requires s == SpellAtom(a) + f == SpellAtom(b) + g && s != []
    requires a.Plain? || a.Any? <==> b.Plain? || b.Any?
    requires a.Plain? || a.Any? ==> s[1..] == f == g && (a.Plain? <==> b.Plain?)
    requires (a.Quoted? <==> b.Quoted?) && (a.Bracket? <==> b.Bracket?) && !a.Group? && !a.EmptyGroup?
    requires a.Quoted? ==> s[1..] == [a.c] + f == [b.c] + g
    requires a.Bracket? ==> s[1..] == SpellBrack(a.b) + f == SpellBrack(b.b) + g && BrackOk(a.b, f) && BrackOk(b.b, g)
    ensures BareAtom(a) == BareAtom(b) && f == g
  {
    hide SpellBrack, BrackOk;
    if a.Bracket? {
      SameBrack(a.b, f, b.b, g);
    } else if a.Quoted? {
      assert s[1..][0] == a.c == b.c;
      B.Cancel([a.c], f, g);
    } else if a.Plain? {
      assert s[0] == a.c == b.c;
    }
  }

  lemma {:induction false} SameBranch(b: Branch, f: Text, c: Branch, g: Text)
    requires SpellBranch(b) + f == SpellBranch(c) + g && BranchOk(b, f) && BranchOk(c, g)
    requires BranchStops(f) && BranchStops(g)
    ensures BareBranch(b) == BareBranch(c) && f == g
    decreases b, 0
  {
    hide SpellAtom, SpellRep, AtomOk, RepOk, BareAtom;
    if b.Then? { C.BranchBegins(b, f); }
    if c.Then? { C.BranchBegins(c, g); }
    assert SpellBranch(Done) + f == f && SpellBranch(Done) + g == g;
    if b.Then? && c.Then? {
      var rb, rc := SpellBranch(b.rest) + f, SpellBranch(c.rest) + g;
      PieceFirst(b, f);
      PieceFirst(c, g);
      SameAtom(b.piece.atom, SpellRep(b.piece.rep) + rb, c.piece.atom, SpellRep(c.piece.rep) + rc);
      SameRep(b.piece.rep, rb, c.piece.rep, rc);
      SameBranch(b.rest, f, c.rest, g);
    }
  }

  lemma PieceFirst(b: Branch, f: Text)
    requires b.Then?
    ensures SpellBranch(b) + f == SpellAtom(b.piece.atom) + (SpellRep(b.piece.rep) + (SpellBranch(b.rest) + f))
  {
    hide SpellAtom, SpellRep;
    Associate(SpellPiece(b.piece), SpellBranch(b.rest), f);
    Associate(SpellAtom(b.piece.atom), SpellRep(b.piece.rep), SpellBranch(b.rest) + f);
  }

  lemma {:induction false} SameTree(t: Tree, f: Text, u: Tree, g: Text)
    requires SpellTree(t) + f == SpellTree(u) + g && TreeOk(t, f) && TreeOk(u, g) && TreeStops(f) && TreeStops(g)
    ensures Bare(t) == Bare(u) && f == g
    decreases t, 0
  {
    hide SpellBranch, BranchOk, BareBranch, Vanishes;
    var f', g' := C.FirstFollow(t, f), C.FirstFollow(u, g);
    TreeFirst(t, f);
    TreeFirst(u, g);
    SameBranch(t.branch, f', u.branch, g');
    if t.Or? {
      assert f'[1..] == SpellTree(t.more) + f;
      assert g'[1..] == SpellTree(u.more) + g;
      SameTree(t.more, f, u.more, g);
    }
  }

  lemma TreeFirst(t: Tree, f: Text)
    requires TreeOk(t, f) && TreeStops(f)
    ensures var f' := C.FirstFollow(t, f);
      && SpellTree(t) + f == SpellBranch(t.branch) + f' && BranchOk(t.branch, f') && BranchStops(f')
      && (t.Or? <==> Begins(f', '|')) && (t.Or? ==> f' == ['|'] + (SpellTree(t.more) + f)) && (t.Only? ==> f' == f)
  {
    hide SpellTree, TreeOk, SpellBranch, BranchOk;
    C.TreeIsDue(SpellTree(t) + f, t, f);
    C.FirstDue(SpellTree(t) + f, t, f, ')' as int);
    C.BarDue(SpellTree(t) + f, t, f, ')' as int);
    if t.Or? { Associate(['|'], SpellTree(t.more), f); }
  }

  // Patterns

  /** t is a reading of the pattern. */
  predicate Reads(t: Tree, pattern: Text) {
    SpellTree(t) == pattern && TreeOk(t, [])
  }

  ghost predicate WellFormed(pattern: Text) {
    exists t :: Reads(t, pattern)
  }

  /** What a pattern means. */
  ghost predicate Means(newline: bool, pattern: Text, w: Text) {
    exists t :: Reads(t, pattern) && TreeMeans(newline, t, w)
  }

  /** Any two readings of a pattern differ in numbers only, and mean the same texts. */
  lemma OneReading(newline: bool, t: Tree, u: Tree, pattern: Text, w: Text)
    requires Reads(t, pattern) && Reads(u, pattern)
    ensures Bare(t) == Bare(u)
    ensures TreeMeans(newline, t, w) <==> TreeMeans(newline, u, w)
  {
    hide TreeMeans, SpellTree, TreeOk;
    assert SpellTree(t) + [] == SpellTree(u) + [];
    SameTree(t, [], u, []);
    BareMeans(newline, t, w);
    BareMeans(newline, u, w);
  }

  /** So the meaning of a pattern is that of whatever reading is at hand. */
  lemma MeansByReading(newline: bool, t: Tree, pattern: Text, w: Text)
    requires Reads(t, pattern)
    ensures Means(newline, pattern, w) <==> TreeMeans(newline, t, w)
  {
    hide TreeMeans, Reads;
    if Means(newline, pattern, w) {
      var u :| Reads(u, pattern) && TreeMeans(newline, u, w);
      OneReading(newline, t, u, pattern, w);
    }
  }
}
