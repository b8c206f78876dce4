/**
  Readings of patterns put together from others: between parentheses, beside a bar, and repeated.
 */
module Readings {
  import opened Strip
  import opened Pattern
  import opened Spelling
  import opened Grammar
  import U = Unambiguous

  // A pattern is one too where a parenthesis or a bar follows

  predicate Stops(f: Text) {
    f != [] ==> f[0] == ')' || f[0] == '|'
  }

  lemma TermFollow(t: Term, x: Text, f: Text, g: Text)
    requires TermOk(t, x + f) && x != [] && (|x| >= 2 || x[0] == ']')
    ensures TermOk(t, x + g)
  {
    assert (x + f)[0] == x[0] == (x + g)[0];
    if |x| >= 2 { assert (x + f)[1] == x[1] == (x + g)[1]; }
  }

  lemma {:induction false} TermsFollow(ts: seq<Term>, x: Text, f: Text, g: Text)
    requires TermsOk(ts, x + f) && x != [] && (|x| >= 2 || x[0] == ']')
    ensures TermsOk(ts, x + g)
    decreases |ts|
  {
    hide TermOk;
    if ts != [] {
      var t, y := ts[|ts| - 1], SpellTerm(ts[|ts| - 1]) + x;
      TermFollow(t, x, f, g);
      assert SpellTerm(t) + (x + f) == y + f && SpellTerm(t) + (x + g) == y + g;
      TermsFollow(ts[..|ts| - 1], y, f, g);
    }
  }

  lemma BrackFollow(b: Brack, f: Text, g: Text)
    requires BrackOk(b, f)
    ensures BrackOk(b, g)
  {
    hide TermsOk, SpellTerms;
    var end := SpellEnd(b.dash);
    TermsFollow(b.terms, end, f, g);
    var s, u := SpellTerms(b.terms) + (end + f), SpellTerms(b.terms) + (end + g);
    assert s == (SpellTerms(b.terms) + end) + f && u == (SpellTerms(b.terms) + end) + g;
    assert s[0] == (SpellTerms(b.terms) + end)[0] == u[0];
  }

  lemma RepFollow(r: Rep, x: Text, f: Text, g: Text)
    requires RepOk(r, x + f) && Stops(f) && Stops(g)
    ensures RepOk(r, x + g)
  {
    hide Sensible, Digits;
    if |x| >= 2 {
      assert (x + f)[..2] == x[..2] == (x + g)[..2];
      assert (x + f)[0] == (x + g)[0] && (x + f)[1] == (x + g)[1];
    } else if |x| == 1 {
      assert (x + f)[0] == (x + g)[0];
      if g != [] { assert (x + g)[1] == g[0]; }
    } else {
      assert x + g == g;
    }
  }

  lemma PlainFollow(c: Ch, x: Text, f: Text, g: Text)
    requires PlainOk(c, x + f) && Stops(f) && Stops(g)
    ensures PlainOk(c, x + g)
  {
    if x == [] { assert x + g == g; } else { assert (x + f)[0] == (x + g)[0]; }
  }

  lemma {:induction false} AtomFollow(a: Atom, x: Text, f: Text, g: Text)
    requires AtomOk(a, x + f) && Stops(f) && Stops(g)
    ensures AtomOk(a, x + g)
    decreases a, 1
  {
    hide BrackOk, TreeOk, PlainOk;
    match a
    case Plain(c) => PlainFollow(c, x, f, g);
    case Bracket(b, _) => BrackFollow(b, x + f, x + g);
    case Group(_, t) =>
      Associate([')'], x, f);
      Associate([')'], x, g);
      TreeFollow(t, [')'] + x, f, g);
    case _ =>
  }

  lemma {:induction false} BranchFollow(b: Branch, x: Text, f: Text, g: Text)
    requires BranchOk(b, x + f) && Stops(f) && Stops(g)
    ensures BranchOk(b, x + g)
    decreases b, 1
  {
    hide AtomOk, RepOk, SpellAtom, SpellRep;
    if b.Then? {
      var y := SpellBranch(b.rest) + x;
      Associate(SpellBranch(b.rest), x, f);
      Associate(SpellBranch(b.rest), x, g);
      Associate(SpellRep(b.piece.rep), y, f);
      Associate(SpellRep(b.piece.rep), y, g);
      AtomFollow(b.piece.atom, SpellRep(b.piece.rep) + y, f, g);
      RepFollow(b.piece.rep, y, f, g);
      BranchFollow(b.rest, x, f, g);
    }
  }

  lemma {:induction false} TreeFollow(t: Tree, x: Text, f: Text, g: Text)
    requires TreeOk(t, x + f) && Stops(f) && Stops(g)
    ensures TreeOk(t, x + g)
    decreases t, 1
  {
    hide BranchOk, Vanishes, SpellTree;
    match t
    case Only(b) => BranchFollow(b, x, f, g);
    case Or(b, more) =>
      var y := ['|'] + SpellTree(more) + x;
      Associate(['|'] + SpellTree(more), x, f);
      Associate(['|'] + SpellTree(more), x, g);
      BranchFollow(b, y, f, g);
      TreeFollow(more, x, f, g);
  }

  /** A reading of a pattern is in order whatever may follow a pattern. */
  lemma ReadingFollows(t: Tree, p: Text, g: Text)
    requires U.Reads(t, p) && Stops(g)
    ensures TreeOk(t, g)
  {
    hide TreeOk, SpellTree;
    var none: Text := [];
    assert none + none == none && none + g == g;
    TreeFollow(t, none, none, g);
  }

  // Patterns of one piece

  function OnePiece(a: Atom, r: Rep): Tree {
    Only(Then(Piece(a, r), Done))
  }

  lemma OnePieceReads(a: Atom, r: Rep)
    requires AtomOk(a, SpellRep(r)) && RepOk(r, []) && To(r) != 0
    ensures U.Reads(OnePiece(a, r), SpellAtom(a) + SpellRep(r))
  {
    hide AtomOk, RepOk, SpellAtom, SpellRep, To;
    var p := Piece(a, r);
    var b := Then(p, Done);
    assert SpellBranch(Done) == [];
    assert SpellBranch(b) == SpellPiece(p) + [] == SpellPiece(p);
    assert SpellBranch(b.rest) + [] == [] && SpellRep(r) + [] == SpellRep(r);
    assert PieceOk(p, []);
    assert BranchOk(b.rest, []);
    assert BranchOk(b, []);
    assert !Vanishes(b);
    assert SpellTree(Only(b)) == SpellBranch(b);
    assert TreeOk(Only(b), []);
  }

  lemma OnePieceMeans(newline: bool, a: Atom, r: Rep, w: Text)
    ensures TreeMeans(newline, OnePiece(a, r), w) <==> PieceMeans(newline, Piece(a, r), w)
  {
    hide PieceMeans;
    var b := Then(Piece(a, r), Done);
    if PieceMeans(newline, b.piece, w) {
      assert w[..|w|] == w && w[|w|..] == [];
      assert BranchMeans(newline, b, w);
    }
    if BranchMeans(newline, b, w) {
      var i :| 0 <= i <= |w| && PieceMeans(newline, b.piece, w[..i]) && BranchMeans(newline, Done, w[i..]);
      assert w[..i] == w;
    }
  }

  /** What a pattern of one piece means. */
  lemma PieceLaw(newline: bool, a: Atom, r: Rep, w: Text)
    requires AtomOk(a, SpellRep(r)) && RepOk(r, []) && To(r) != 0
    ensures U.Means(newline, SpellAtom(a) + SpellRep(r), w) <==> PieceMeans(newline, Piece(a, r), w)
  {
    hide AtomOk, RepOk, SpellAtom, SpellRep, To, PieceMeans, U.Reads, U.Means, TreeMeans;
    OnePieceReads(a, r);
    OnePieceMeans(newline, a, r, w);
    U.MeansByReading(newline, OnePiece(a, r), SpellAtom(a) + SpellRep(r), w);
  }

  lemma OneBranch(b: Branch)
    requires TreeOk(Only(b), [])
    ensures SpellTree(Only(b)) == SpellBranch(b) && BranchOk(b, []) && !Vanishes(b)
  {
    hide SpellBranch, BranchOk, Vanishes;
  }

  lemma JoinBranch(p: Piece, rest: Branch)
    requires PieceOk(p, SpellBranch(rest) + []) && BranchOk(rest, []) && !Vanishes(rest)
    ensures U.Reads(Only(Then(p, rest)), SpellPiece(p) + SpellBranch(rest))
  {
    hide PieceOk, SpellPiece, To;
    var b := Then(p, rest);
    assert BranchOk(b, []);
    assert SpellBranch(b) == SpellPiece(p) + SpellBranch(rest);
    assert SpellTree(Only(b)) == SpellBranch(b);
    assert TreeOk(Only(b), []);
  }

  lemma OnceMeans(newline: bool, a: Atom, w: Text)
    ensures PieceMeans(newline, Piece(a, Once), w) <==> AtomMeans(newline, a, w)
  {
    hide AtomMeans;
    if AtomMeans(newline, a, w) {
      assert w[..0] == [] && w[0..] == w;
      assert AtomPower(newline, a, 0, w[..0]);
      assert AtomPower(newline, a, 1, w);
    }
    if PieceMeans(newline, Piece(a, Once), w) {
      assert AtomPower(newline, a, 1, w);
      var i :| 0 <= i <= |w| && AtomPower(newline, a, 0, w[..i]) && AtomMeans(newline, a, w[i..]);
      assert w[i..] == w;
    }
  }

  // Groups and bars

  predicate Short(r: Rep) {
    r == Once || r == Star || r == Plus || r == Opt
  }

  function GroupText(p: Text, r: Rep): Text {
    ['('] + p + [')'] + SpellRep(r)
  }

  lemma GroupReads(t: Tree, p: Text, r: Rep)
    requires U.Reads(t, p) && Short(r)
    ensures U.Reads(OnePiece(Group(1, t), r), GroupText(p, r))
  {
    hide TreeOk, SpellTree;
    ReadingFollows(t, p, [')'] + SpellRep(r));
    OnePieceReads(Group(1, t), r);
    assert SpellAtom(Group(1, t)) == ['('] + p + [')'];
  }

  /** The branches of t, and then those of u. */
  function AltTree(t: Tree, u: Tree): Tree {
    Or(t.branch, if t.Only? then u else AltTree(t.more, u))
  }

  lemma {:induction false} AltTreeOk(t: Tree, u: Tree, f: Text)
    requires TreeOk(t, ['|'] + SpellTree(u) + f) && TreeOk(u, f)
    ensures TreeOk(AltTree(t, u), f) && SpellTree(AltTree(t, u)) == SpellTree(t) + ['|'] + SpellTree(u)
    decreases t
  {
    hide BranchOk, SpellBranch, Vanishes;
    if t.Or? {
      AltTreeOk(t.more, u, f);
      var s, m := ['|'] + SpellTree(u), SpellTree(t.more);
      assert SpellTree(AltTree(t.more, u)) == m + s by { Associate(m, ['|'], SpellTree(u)); }
      assert ['|'] + (m + s) + f == ['|'] + m + (s + f);
      assert SpellBranch(t.branch) + ['|'] + (m + s) == SpellBranch(t.branch) + ['|'] + m + s;
      Associate(SpellTree(t), ['|'], SpellTree(u));
      Associate(m, ['|'], SpellTree(u));
    }
  }

  lemma AltReads(t: Tree, u: Tree, p: Text, q: Text)
    requires U.Reads(t, p) && U.Reads(u, q)
    ensures U.Reads(AltTree(t, u), p + ['|'] + q)
  {
    hide TreeOk, SpellTree;
    var none: Text := [];
    assert ['|'] + SpellTree(u) + none == ['|'] + SpellTree(u);
    ReadingFollows(t, p, ['|'] + SpellTree(u));
    AltTreeOk(t, u, none);
  }

  lemma {:induction false} AltMeans(newline: bool, t: Tree, u: Tree, w: Text)
    ensures TreeMeans(newline, AltTree(t, u), w) <==> TreeMeans(newline, t, w) || TreeMeans(newline, u, w)
    decreases t
  {
    hide BranchMeans;
    if t.Or? { AltMeans(newline, t.more, u, w); }
  }
}
