/**
  Which trees are readings of a pattern.  Whether a character is ordinary can depend on what follows it,
  so each part is judged with the text that follows.
 */
module Grammar {
  import opened Strip
  import opened Pattern
  import opened Spelling

  predicate IsDigit(c: Ch) {
    '0' <= c <= '9'
  }

  predicate AllDigits(s: Text) {
    forall i :: 0 <= i < |s| ==> IsDigit(s[i])
  }

  predicate Begins(s: Text, c: Ch) {
    s != [] && s[0] == c
  }

  /** The text begins with a repetition operator; a { is one if a digit follows. */
  predicate Repeats(s: Text) {
    s != [] && (s[0] == '*' || s[0] == '+' || s[0] == '?' || (s[0] == '{' && |s| > 1 && IsDigit(s[1])))
  }

  predicate Special(c: Ch) {
    c == '(' || c == ')' || c == '|' || c == '*' || c == '+' || c == '?' || c == '.' || c == '[' || c == '\\' || c == '^' || c == '$'
  }

  // Bracket lists

  /** A term may begin with c. */
  predicate BeginsTerm(c: Ch) {
    c != ']' && c != '-'
  }

  predicate TermOk(t: Term, follow: Text) {
    match t
    case One(c) =>
      && BeginsTerm(c) && !(|follow| > 1 && follow[0] == '-' && follow[1] != ']')
      && (c == '[' ==> !Begins(follow, ':') && !Begins(follow, '=') && !Begins(follow, '.'))
    case Range(a, b) =>
      BeginsTerm(a) && a <= b && b != ']' && (b == '[' ==> !Begins(follow, '.'))
  }

  predicate TermsOk(ts: seq<Term>, follow: Text) {
    if ts == [] then true
    else
      var t := ts[|ts| - 1];
      TermOk(t, follow) && TermsOk(ts[..|ts| - 1], SpellTerm(t) + follow)
  }

  /** What a bracket list may begin with besides its terms. */
  predicate Leads(lead: Text) {
    lead == [] || lead == [']'] || lead == ['-']
  }

  predicate BrackOk(b: Brack, follow: Text) {
    var end := SpellEnd(b.dash) + follow;
    && Leads(b.lead) && TermsOk(b.terms, end)
    && (b.lead == [] ==> LeadlessOk(b.invert, SpellTerms(b.terms) + end))
  }

  predicate LeadlessOk(invert: bool, s: Text) {
    !Begins(s, ']') && !Begins(s, '-') && (!invert ==> !Begins(s, '^'))
  }

  // Expressions

  predicate RepOk(r: Rep, follow: Text) {
    && !Repeats(follow) && Sensible(r)
    && (r.Bound? ==> Digits(r.lo) && (r.hi.UpTo? ==> Digits(r.hi.hi)))
  }

  predicate Digits(s: Text) {
    s != [] && AllDigits(s)
  }

  predicate PlainOk(c: Ch, follow: Text) {
    !Special(c) && (c == '{' ==> !(follow != [] && IsDigit(follow[0])))
  }

  predicate AtomOk(a: Atom, follow: Text)
    decreases a, 0
  {
    match a
    case Plain(c) => PlainOk(c, follow)
    case Bracket(b, _) => BrackOk(b, follow)
    case Group(_, t) => TreeOk(t, [')'] + follow)
    case _ => true
  }

  predicate PieceOk(p: Piece, follow: Text)
    decreases p, 0
  {
    AtomOk(p.atom, SpellRep(p.rep) + follow) && RepOk(p.rep, follow)
  }

  predicate BranchOk(b: Branch, follow: Text)
    decreases b, 0
  {
    b.Then? ==> PieceOk(b.piece, SpellBranch(b.rest) + follow) && BranchOk(b.rest, follow)
  }

  /** No branch may vanish: an empty one is refused, and one of which every piece is repeated zero times. */
  predicate TreeOk(t: Tree, follow: Text)
    decreases t, 0
  {
    match t
    case Only(b) => BranchOk(b, follow) && !Vanishes(b)
    case Or(b, more) => BranchOk(b, ['|'] + SpellTree(more) + follow) && !Vanishes(b) && TreeOk(more, follow)
  }

  predicate Vanishes(b: Branch) {
    b.Then? ==> To(b.piece.rep) == 0 && Vanishes(b.rest)
  }

  // Growing to the right

  lemma Associate(a: Text, b: Text, c: Text)
    ensures a + b + c == a + (b + c)
  {
  }

  lemma TermsOkMore(ts: seq<Term>, t: Term, follow: Text)
    requires TermsOk(ts, SpellTerm(t) + follow) && TermOk(t, follow)
    ensures TermsOk(ts + [t], follow)
  {
    hide TermOk, SpellTerm;
    assert (ts + [t])[..|ts|] == ts;
  }

  lemma {:induction false} AddedPieceOk(b: Branch, p: Piece, follow: Text)
    requires BranchOk(b, SpellPiece(p) + follow) && PieceOk(p, follow)
    ensures BranchOk(AddPiece(b, p), follow)
    decreases b
  {
    hide PieceOk, SpellPiece;
    if b.Then? {
      AddedPieceOk(b.rest, p, follow);
      AddedPieceSpelling(b.rest, p);
      Associate(SpellBranch(b.rest), SpellPiece(p), follow);
    } else {
      assert [] + follow == follow;
      assert SpellBranch(Done) == [];
    }
  }

  lemma {:induction false} AddedBranchOk(t: Tree, b: Branch, follow: Text)
    requires TreeOk(t, ['|'] + SpellBranch(b) + follow) && BranchOk(b, follow) && !Vanishes(b)
    ensures TreeOk(AddBranch(t, b), follow)
    decreases t
  {
    hide BranchOk, SpellBranch, Vanishes;
    if t.Or? {
      AddedBranchOk(t.more, b, follow);
      AddedBranchSpelling(t.more, b);
      var s := SpellTree(t.more);
      assert ['|'] + s + (['|'] + SpellBranch(b) + follow) == ['|'] + (s + ['|'] + SpellBranch(b)) + follow;
    } else {
      assert SpellTree(Only(b)) == SpellBranch(b);
    }
  }

  // What vanishes

  lemma AtomLen(newline: bool, a: Atom)
    ensures Len(AtomRe(newline, a)) > 0
  {
    hide TreeRe, BrackSet, Others;
  }

  lemma RepLen(x: Re, r: Rep)
    requires Len(x) > 0 && Sensible(r)
    ensures Len(RepRe(x, r)) == 0 <==> To(r) == 0
  {
    hide RepeatRe, NodeLen, Optional, Number, Len;
    NilLen();
    ConsLen(Maybe(Cons(Loop(x), Nil)), Nil);
    ConsLen(Loop(x), Nil);
    ConsLen(Optional(x), Nil);
    if r.Bound? {
      RepeatLen(x, From(r), To(r));
      SizeZero(Len(x), From(r), To(r));
    }
  }

  lemma ConsLen(n: Node, t: Re)
    ensures Len(Cons(n, t)) > 0
  {
    hide NodeLen;
  }

  lemma SizeZero(n: nat, from: nat, to: nat)
    requires n > 0 && from <= to <= INFINITY
    ensures RepeatSize(n, from, to) == 0 <==> to == 0
  {
    if 0 < to < INFINITY { assert to * n >= n; }
    if from > 0 { assert from * n >= n; }
  }

  /** A branch leaves no code behind just when all of its pieces are repeated zero times. */
  lemma {:induction false} VanishesIff(newline: bool, b: Branch, follow: Text)
    requires BranchOk(b, follow)
    ensures Len(BranchRe(newline, b)) == 0 <==> Vanishes(b)
    decreases b
  {
    hide AtomOk, PieceRe, Len, To, Sensible;
    NilLen();
    if b.Then? {
      VanishesIff(newline, b.rest, follow);
      PieceLen(newline, b.piece, SpellBranch(b.rest) + follow);
    }
  }

  lemma PieceLen(newline: bool, p: Piece, follow: Text)
    requires PieceOk(p, follow)
    ensures Len(PieceRe(newline, p)) == 0 <==> To(p.rep) == 0
  {
    hide AtomOk, AtomRe, RepRe, To, Len;
    AtomLen(newline, p.atom);
    RepLen(AtomRe(newline, p.atom), p.rep);
  }
}
