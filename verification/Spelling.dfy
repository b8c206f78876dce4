/**
  How patterns are written down, how their groups are numbered, and how both grow as the compiler reads
  on: one more piece at the end of a branch, one more branch at the end of an alternation.
 */
module Spelling {
  import opened Strip
  import opened Language
  import opened Pattern
  import opened Dissection

  function SpellTree(t: Tree): Text {
    match t
    case Only(b) => SpellBranch(b)
    case Or(b, more) => SpellBranch(b) + ['|'] + SpellTree(more)
  }

  function SpellBranch(b: Branch): Text {
    match b
    case Done => []
    case Then(p, rest) => SpellPiece(p) + SpellBranch(rest)
  }

  function SpellPiece(p: Piece): Text {
    SpellAtom(p.atom) + SpellRep(p.rep)
  }

  function SpellAtom(a: Atom): Text {
    match a
    case Plain(c) => [c]
    case Quoted(c) => ['\\', c]
    case Any(_) => ['.']
    case Bracket(b, _) => ['['] + SpellBrack(b)
    case Group(_, t) => ['('] + SpellTree(t) + [')']
    case EmptyGroup(_) => ['(', ')']
  }

  function SpellRep(r: Rep): Text {
    match r
    case Once => []
    case Star => ['*']
    case Plus => ['+']
    case Opt => ['?']
    case Bound(lo, hi) => ['{'] + lo + SpellHi(hi) + ['}']
  }

  function SpellHi(hi: Hi): Text {
    match hi
    case Exactly => []
    case AtLeast => [',']
    case UpTo(h) => [','] + h
  }

  function SpellBrack(b: Brack): Text {
    SpellInvert(b.invert) + b.lead + SpellTerms(b.terms) + SpellEnd(b.dash)
  }

  function SpellInvert(invert: bool): Text {
    if invert then ['^'] else []
  }

  /** The - a list may end with, and the closing bracket. */
  function SpellEnd(dash: bool): Text {
    if dash then ['-', ']'] else [']']
  }

  function SpellTerms(ts: seq<Term>): Text {
    if ts == [] then [] else SpellTerms(ts[..|ts| - 1]) + SpellTerm(ts[|ts| - 1])
  }

  function SpellTerm(t: Term): (s: Text)
    ensures s != []
  {
    match t
    case One(c) => [c]
    case Range(a, b) => [a, '-', b]
  }

  // Group numbers

  /** How many groups there are. */
  function Groups(t: Tree): nat {
    BranchGroups(t.branch) + if t.Or? then Groups(t.more) else 0
  }

  function BranchGroups(b: Branch): nat {
    match b
    case Done => 0
    case Then(p, rest) => AtomGroups(p.atom) + BranchGroups(rest)
  }

  function AtomGroups(a: Atom): nat {
    match a
    case Group(_, t) => 1 + Groups(t)
    case EmptyGroup(_) => 1
    case _ => 0
  }

  /** Groups are numbered from n + 1 on, in the order of their left parentheses. */
  predicate Ordered(t: Tree, n: nat)
    decreases t
  {
    OrderedBranch(t.branch, n) && (t.Or? ==> Ordered(t.more, n + BranchGroups(t.branch)))
  }

  predicate OrderedBranch(b: Branch, n: nat)
    decreases b
  {
    b.Then? ==> OrderedAtom(b.piece.atom, n) && OrderedBranch(b.rest, n + AtomGroups(b.piece.atom))
  }

  predicate OrderedAtom(a: Atom, n: nat)
    decreases a
  {
    match a
    case Group(no, t) => no == n + 1 && Ordered(t, n + 1)
    case EmptyGroup(no) => no == n + 1
    case _ => true
  }

  /** More sets do not disturb the numbers of those there were. */
  lemma {:induction false} NumberedMore(newline: bool, sets: Sets, more: Sets, t: Tree)
    requires sets <= more && Numbered(newline, sets, t)
    ensures Numbered(newline, more, t)
    decreases t
  {
    NumberedMoreBranch(newline, sets, more, t.branch);
    if t.Or? { NumberedMore(newline, sets, more, t.more); }
  }

  lemma {:induction false} NumberedMoreBranch(newline: bool, sets: Sets, more: Sets, b: Branch)
    requires sets <= more && NumberedBranch(newline, sets, b)
    ensures NumberedBranch(newline, more, b)
    decreases b
  {
    if b.Then? {
      NumberedMoreAtom(newline, sets, more, b.piece.atom);
      NumberedMoreBranch(newline, sets, more, b.rest);
    }
  }

  lemma {:induction false} NumberedMoreAtom(newline: bool, sets: Sets, more: Sets, a: Atom)
    requires sets <= more && NumberedAtom(newline, sets, a)
    ensures NumberedAtom(newline, more, a)
    decreases a
  {
    match a
    case Group(no, t) => NumberedMore(newline, sets, more, t);
    case _ =>
  }

  // One more piece

  function AddPiece(b: Branch, p: Piece): Branch {
    match b
    case Done => Then(p, Done)
    case Then(q, rest) => Then(q, AddPiece(rest, p))
  }

  lemma {:induction false} AddedPieceSpelling(b: Branch, p: Piece)
    ensures SpellBranch(AddPiece(b, p)) == SpellBranch(b) + SpellPiece(p)
    ensures BranchGroups(AddPiece(b, p)) == BranchGroups(b) + AtomGroups(p.atom)
    decreases b
  {
    hide SpellPiece, AtomGroups;
    match b
    case Done =>
    case Then(q, rest) => AddedPieceSpelling(rest, p);
  }

  lemma {:induction false} AddedPieceCode(newline: bool, b: Branch, p: Piece)
    ensures Code(BranchRe(newline, AddPiece(b, p))) == Code(BranchRe(newline, b)) + Code(PieceRe(newline, p))
    decreases b
  {
    hide PieceRe, Code;
    NilCode();
    match b
    case Done => AppendNil(PieceRe(newline, p));
    case Then(q, rest) =>
      AddedPieceCode(newline, rest, p);
      AppendCode(PieceRe(newline, q), BranchRe(newline, rest));
      AppendCode(PieceRe(newline, q), BranchRe(newline, AddPiece(rest, p)));
  }

  lemma NilCode()
    ensures Code(Nil) == []
  {
  }

  lemma {:induction false} AddedPieceNumbers(newline: bool, sets: Sets, b: Branch, p: Piece, n: nat)
    requires NumberedBranch(newline, sets, b) && NumberedAtom(newline, sets, p.atom) && Sensible(p.rep)
    requires OrderedBranch(b, n) && OrderedAtom(p.atom, n + BranchGroups(b))
    ensures NumberedBranch(newline, sets, AddPiece(b, p)) && OrderedBranch(AddPiece(b, p), n)
    decreases b
  {
    hide NumberedAtom, OrderedAtom, Sensible, AtomGroups;
    if b.Then? { AddedPieceNumbers(newline, sets, b.rest, p, n + AtomGroups(b.piece.atom)); }
  }

  // One more branch

  function AddBranch(t: Tree, b: Branch): Tree {
    match t
    case Only(c) => Or(c, Only(b))
    case Or(c, more) => Or(c, AddBranch(more, b))
  }

  lemma {:induction false} AddedBranchSpelling(t: Tree, b: Branch)
    ensures SpellTree(AddBranch(t, b)) == SpellTree(t) + ['|'] + SpellBranch(b)
    ensures Groups(AddBranch(t, b)) == Groups(t) + BranchGroups(b)
    decreases t
  {
    hide SpellBranch, BranchGroups;
    if t.Or? {
      AddedBranchSpelling(t.more, b);
      var s := SpellBranch(t.branch);
      assert s + ['|'] + (SpellTree(t.more) + ['|'] + SpellBranch(b)) == (s + ['|'] + SpellTree(t.more)) + ['|'] + SpellBranch(b);
    }
  }

  lemma {:induction false} AddedBranchNumbers(newline: bool, sets: Sets, t: Tree, b: Branch, n: nat)
    requires Numbered(newline, sets, t) && NumberedBranch(newline, sets, b)
    requires Ordered(t, n) && OrderedBranch(b, n + Groups(t))
    ensures Numbered(newline, sets, AddBranch(t, b)) && Ordered(AddBranch(t, b), n)
    decreases t
  {
    hide NumberedBranch, OrderedBranch, BranchGroups;
    if t.Or? { AddedBranchNumbers(newline, sets, t.more, b, n + BranchGroups(t.branch)); }
  }

  /**
    The code of an alternation of which the branches in t are complete and another is to come: all up to
    the mark that begins the next branch.
   */
  ghost function OpenCode(newline: bool, t: Tree): (code: seq<Sop>)
    ensures |code| > 0
  {
    var x := BranchRe(newline, t.branch);
    [Sop(OCH_, Len(x) + 2)] + Code(x) + [Sop(OOR1, Len(x) + 1)] + if t.Or? then OpenAlts(newline, t.more) else []
  }

  ghost function OpenAlts(newline: bool, t: Tree): seq<Sop> {
    OpenBranch(newline, t.branch) + if t.Or? then OpenAlts(newline, t.more) else []
  }

  /** A branch, complete, with another after it. */
  ghost function OpenBranch(newline: bool, b: Branch): seq<Sop> {
    var x := BranchRe(newline, b);
    [Sop(OOR2, Len(x) + 2)] + Code(x) + [Sop(OOR1, Len(x) + 2)]
  }

  /** The last branch. */
  ghost function LastBranch(newline: bool, b: Branch): seq<Sop> {
    var x := BranchRe(newline, b);
    [Sop(OOR2, Len(x) + 1)] + Code(x) + [Sop(O_CH, Len(x) + 2)]
  }

  lemma {:induction false} OpenAltsMore(newline: bool, t: Tree, b: Branch)
    ensures OpenAlts(newline, AddBranch(t, b)) == OpenAlts(newline, t) + OpenBranch(newline, b)
    decreases t
  {
    hide OpenBranch;
    if t.Or? { OpenAltsMore(newline, t.more, b); }
  }

  lemma OpenCodeMore(newline: bool, t: Tree, b: Branch)
    ensures OpenCode(newline, AddBranch(t, b)) == OpenCode(newline, t) + OpenBranch(newline, b)
  {
    hide OpenBranch, Code, Len, BranchRe;
    if t.Or? { OpenAltsMore(newline, t.more, b); }
  }

  lemma {:induction false} OpenAltsLast(newline: bool, t: Tree, b: Branch)
    ensures AltsCode(TreeAlts(newline, AddBranch(t, b))) == OpenAlts(newline, t) + LastBranch(newline, b)
    decreases t
  {
    hide Code, Len, BranchRe, AltsCode;
    var x := BranchRe(newline, t.branch);
    AltsCodes(Last(BranchRe(newline, b)));
    if t.Or? {
      OpenAltsLast(newline, t.more, b);
      AltsCodes(More(x, TreeAlts(newline, AddBranch(t.more, b))));
      Regroup(OpenBranch(newline, t.branch), OpenAlts(newline, t.more), LastBranch(newline, b));
    } else {
      AltsCodes(More(x, Last(BranchRe(newline, b))));
    }
  }

  lemma Regroup(a: seq<Sop>, b: seq<Sop>, c: seq<Sop>)
    ensures a + (b + c) == (a + b) + c
  {
  }

  lemma OpenCodeLast(newline: bool, t: Tree, b: Branch)
    ensures Code(TreeRe(newline, AddBranch(t, b))) == OpenCode(newline, t) + LastBranch(newline, b)
  {
    hide Code, NodeCode, AltsCode, Len, BranchRe, LastBranch;
    var x := BranchRe(newline, t.branch);
    var o := if t.Or? then TreeAlts(newline, AddBranch(t.more, b)) else Last(BranchRe(newline, b));
    CodeOne(Choice(x, o));
    NodeCodes(Choice(x, o));
    var head := [Sop(OCH_, Len(x) + 2)] + Code(x) + [Sop(OOR1, Len(x) + 1)];
    if t.Or? {
      OpenAltsLast(newline, t.more, b);
      Regroup(head, OpenAlts(newline, t.more), LastBranch(newline, b));
    } else {
      LastCode(newline, b);
      assert head + [] == head;
    }
  }

  lemma LastCode(newline: bool, b: Branch)
    ensures AltsCode(Last(BranchRe(newline, b))) == LastBranch(newline, b)
  {
    hide Code, Len, AltsCode, BranchRe;
    AltsCodes(Last(BranchRe(newline, b)));
  }
}
