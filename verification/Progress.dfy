/**
  How far the compiler has come: what is left to read, what the strip and the sets hold, and how many
  groups there have been.  A part of the pattern is done between two such places; larger parts are done
  when their parts are.
 */
module Progress {
  import opened Strip
  import opened Pattern
  import opened Spelling
  import opened Grammar

  datatype Place = Place(rest: Text, strip: seq<Sop>, sets: Sets, nsub: nat)

  ghost predicate AtomDone(newline: bool, was: Place, now: Place, a: Atom) {
    && was.rest == SpellAtom(a) + now.rest && AtomOk(a, now.rest)
    && now.strip == was.strip + Code(AtomRe(newline, a))
    && was.sets <= now.sets && NumberedAtom(newline, now.sets, a)
    && OrderedAtom(a, was.nsub) && now.nsub == was.nsub + AtomGroups(a)
  }

  ghost predicate PieceDone(newline: bool, was: Place, now: Place, p: Piece) {
    && was.rest == SpellPiece(p) + now.rest && PieceOk(p, now.rest)
    && now.strip == was.strip + Code(PieceRe(newline, p))
    && was.sets <= now.sets && NumberedAtom(newline, now.sets, p.atom)
    && OrderedAtom(p.atom, was.nsub) && now.nsub == was.nsub + AtomGroups(p.atom)
  }

  ghost predicate BranchDone(newline: bool, was: Place, now: Place, b: Branch) {
    && was.rest == SpellBranch(b) + now.rest && BranchOk(b, now.rest)
    && now.strip == was.strip + Code(BranchRe(newline, b))
    && was.sets <= now.sets && NumberedBranch(newline, now.sets, b)
    && OrderedBranch(b, was.nsub) && now.nsub == was.nsub + BranchGroups(b)
  }

  ghost predicate TreeDone(newline: bool, was: Place, now: Place, t: Tree) {
    && was.rest == SpellTree(t) + now.rest && TreeOk(t, now.rest)
    && now.strip == was.strip + Code(TreeRe(newline, t))
    && was.sets <= now.sets && Numbered(newline, now.sets, t)
    && Ordered(t, was.nsub) && now.nsub == was.nsub + Groups(t)
  }

  /** The branches in t are done, a bar has been read, and the mark that begins the next branch is there. */
  ghost predicate OpenDone(newline: bool, was: Place, now: Place, t: Tree) {
    && was.rest == SpellTree(t) + (['|'] + now.rest) && TreeOk(t, ['|'] + now.rest)
    && now.strip == was.strip + OpenCode(newline, t) + [Sop(OOR2, 0)]
    && was.sets <= now.sets && Numbered(newline, now.sets, t)
    && Ordered(t, was.nsub) && now.nsub == was.nsub + Groups(t)
  }

  lemma RepeatedDone(newline: bool, was: Place, mid: Place, now: Place, a: Atom, r: Rep)
    requires AtomDone(newline, was, mid, a)
    requires mid.rest == SpellRep(r) + now.rest && RepOk(r, now.rest)
    requires now.strip == was.strip + Code(RepRe(AtomRe(newline, a), r))
    requires now.sets == mid.sets && now.nsub == mid.nsub
    ensures PieceDone(newline, was, now, Piece(a, r))
  {
    hide AtomOk, RepOk, AtomRe, RepRe, Code, NumberedAtom, OrderedAtom, AtomGroups, SpellAtom, SpellRep;
    Associate(SpellAtom(a), SpellRep(r), now.rest);
  }

  lemma NoneDone(newline: bool, was: Place)
    ensures BranchDone(newline, was, was, Done)
  {
    NilCode();
    assert [] + was.rest == was.rest;
    assert was.strip + [] == was.strip;
  }

  lemma OneMoreDone(newline: bool, was: Place, mid: Place, now: Place, b: Branch, p: Piece)
    requires BranchDone(newline, was, mid, b) && PieceDone(newline, mid, now, p)
    ensures BranchDone(newline, was, now, AddPiece(b, p))
  {
    hide BranchOk, PieceOk, BranchRe, PieceRe, Code, NumberedBranch, NumberedAtom, OrderedBranch, OrderedAtom,
      BranchGroups, AtomGroups, SpellBranch, SpellPiece, Sensible;
    Associate(SpellBranch(b), SpellPiece(p), now.rest);
    AddedPieceSpelling(b, p);
    AddedPieceOk(b, p, now.rest);
    AddedPieceCode(newline, b, p);
    assert was.strip + Code(BranchRe(newline, b)) + Code(PieceRe(newline, p)) == was.strip + (Code(BranchRe(newline, b)) + Code(PieceRe(newline, p)));
    NumberedMoreBranch(newline, mid.sets, now.sets, b);
    PieceSensible(p, now.rest);
    AddedPieceNumbers(newline, now.sets, b, p, was.nsub);
  }

  lemma PieceSensible(p: Piece, f: Text)
    requires PieceOk(p, f)
    ensures Sensible(p.rep)
  {
    hide AtomOk, Sensible;
  }

  /** The parts of an expression with one branch. */
  lemma OnlyBranch(newline: bool, sets: Sets, b: Branch, n: nat, f: Text)
    ensures SpellTree(Only(b)) == SpellBranch(b) && TreeRe(newline, Only(b)) == BranchRe(newline, b)
    ensures TreeOk(Only(b), f) <==> BranchOk(b, f) && !Vanishes(b)
    ensures Numbered(newline, sets, Only(b)) <==> NumberedBranch(newline, sets, b)
    ensures Ordered(Only(b), n) <==> OrderedBranch(b, n)
    ensures Groups(Only(b)) == BranchGroups(b)
  {
    hide BranchOk, BranchRe, NumberedBranch, OrderedBranch, BranchGroups, SpellBranch, Vanishes;
  }

  lemma OnlyDone(newline: bool, was: Place, now: Place, b: Branch)
    requires BranchDone(newline, was, now, b) && !Vanishes(b)
    ensures TreeDone(newline, was, now, Only(b))
  {
    hide BranchOk, BranchRe, TreeOk, TreeRe, Code, NumberedBranch, Numbered, OrderedBranch, Ordered,
      BranchGroups, Groups, SpellBranch, SpellTree, Vanishes;
    OnlyBranch(newline, now.sets, b, was.nsub, now.rest);
  }

  /** The first branch, once its bar has been read. */
  lemma FirstDone(newline: bool, was: Place, mid: Place, now: Place, b: Branch)
    requires BranchDone(newline, was, mid, b) && !Vanishes(b)
    requires mid.rest == ['|'] + now.rest && now.sets == mid.sets && now.nsub == mid.nsub
    requires now.strip == was.strip + OpenCode(newline, Only(b)) + [Sop(OOR2, 0)]
    ensures OpenDone(newline, was, now, Only(b))
  {
    hide BranchOk, BranchRe, TreeOk, TreeRe, Code, NumberedBranch, Numbered, OrderedBranch, Ordered,
      BranchGroups, Groups, SpellBranch, SpellTree, Vanishes, OpenCode;
    OnlyBranch(newline, now.sets, b, was.nsub, mid.rest);
  }

  /** Another branch, after those in t. */
  lemma AddBranchFacts(newline: bool, was: Place, mid: Place, end: Place, t: Tree, b: Branch)
    requires OpenDone(newline, was, mid, t) && BranchDone(newline, mid, end, b) && !Vanishes(b)
    ensures was.rest == SpellTree(AddBranch(t, b)) + end.rest && TreeOk(AddBranch(t, b), end.rest)
    ensures was.sets <= end.sets && Numbered(newline, end.sets, AddBranch(t, b))
    ensures Ordered(AddBranch(t, b), was.nsub) && end.nsub == was.nsub + Groups(AddBranch(t, b))
  {
    hide BranchOk, BranchRe, TreeOk, TreeRe, Code, NumberedBranch, Numbered, OrderedBranch, Ordered,
      BranchGroups, Groups, SpellBranch, SpellTree, Vanishes, OpenCode;
    AddedBranchSpelling(t, b);
    Associate(['|'], SpellBranch(b), end.rest);
    Associate(SpellTree(t), ['|'], SpellBranch(b));
    Associate(SpellTree(t), ['|'] + SpellBranch(b), end.rest);
    AddedBranchOk(t, b, end.rest);
    NumberedMore(newline, mid.sets, end.sets, t);
    AddedBranchNumbers(newline, end.sets, t, b, was.nsub);
  }

  lemma NextDone(newline: bool, was: Place, mid: Place, end: Place, now: Place, t: Tree, b: Branch)
    requires OpenDone(newline, was, mid, t) && BranchDone(newline, mid, end, b) && !Vanishes(b)
    requires end.rest == ['|'] + now.rest && now.sets == end.sets && now.nsub == end.nsub
    requires now.strip == was.strip + OpenCode(newline, t) + OpenBranch(newline, b) + [Sop(OOR2, 0)]
    ensures OpenDone(newline, was, now, AddBranch(t, b))
  {
    hide BranchDone, BranchRe, TreeOk, TreeRe, Code, Numbered, Ordered, Groups, SpellTree, Vanishes, OpenCode, OpenBranch;
    AddBranchFacts(newline, was, mid, end, t, b);
    OpenCodeMore(newline, t, b);
    assert was.strip + OpenCode(newline, t) + OpenBranch(newline, b) == was.strip + (OpenCode(newline, t) + OpenBranch(newline, b));
  }

  lemma LastDone(newline: bool, was: Place, mid: Place, end: Place, now: Place, t: Tree, b: Branch)
    requires OpenDone(newline, was, mid, t) && BranchDone(newline, mid, end, b) && !Vanishes(b)
    requires end.rest == now.rest && now.sets == end.sets && now.nsub == end.nsub
    requires now.strip == was.strip + OpenCode(newline, t) + LastBranch(newline, b)
    ensures TreeDone(newline, was, now, AddBranch(t, b))
  {
    hide BranchDone, BranchRe, TreeOk, TreeRe, Code, Numbered, Ordered, Groups, SpellTree, Vanishes, OpenCode, LastBranch;
    AddBranchFacts(newline, was, mid, end, t, b);
    OpenCodeLast(newline, t, b);
    assert was.strip + OpenCode(newline, t) + LastBranch(newline, b) == was.strip + (OpenCode(newline, t) + LastBranch(newline, b));
  }

  /** A group, from its parentheses and what is between them. */
  lemma GroupDone(newline: bool, was: Place, in0: Place, in1: Place, now: Place, t: Tree)
    requires TreeDone(newline, in0, in1, t)
    requires was.rest == ['('] + in0.rest && in0.strip == was.strip + [Sop(OLPAREN, in0.nsub)]
    requires in0.nsub == was.nsub + 1 && in0.sets == was.sets
    requires in1.rest == [')'] + now.rest && now.strip == in1.strip + [Sop(ORPAREN, in0.nsub)]
    requires now.nsub == in1.nsub && now.sets == in1.sets
    ensures AtomDone(newline, was, now, Group(in0.nsub, t))
  {
    hide TreeOk, TreeRe, Code, Numbered, Ordered, Groups, SpellTree;
    GroupCode(newline, in0.nsub, t);
    Associate(['('] + SpellTree(t), [')'], now.rest);
    Associate(['('], SpellTree(t), in1.rest);
    var c := Code(TreeRe(newline, t));
    assert was.strip + [Sop(OLPAREN, in0.nsub)] + c + [Sop(ORPAREN, in0.nsub)]
        == was.strip + ([Sop(OLPAREN, in0.nsub)] + c + [Sop(ORPAREN, in0.nsub)]);
  }

  lemma GroupCode(newline: bool, no: nat, t: Tree)
    ensures Code(AtomRe(newline, Group(no, t))) == [Sop(OLPAREN, no)] + Code(TreeRe(newline, t)) + [Sop(ORPAREN, no)]
  {
    hide TreeRe, NodeCode, Code;
    var x := TreeRe(newline, t);
    CodeOne(Shut(no));
    ParenCodes(no);
    AppendCode(x, Cons(Shut(no), Nil));
    ConsCode(Open(no), Append(x, Cons(Shut(no), Nil)));
  }

  lemma ConsCode(n: Node, x: Re)
    ensures Code(Cons(n, x)) == NodeCode(n) + Code(x)
  {
    hide NodeCode, NodeLen, Len;
  }

  lemma ParenCodes(no: nat)
    ensures NodeCode(Open(no)) == [Sop(OLPAREN, no)] && NodeCode(Shut(no)) == [Sop(ORPAREN, no)]
  {
  }

  lemma EmptyGroupDone(newline: bool, was: Place, now: Place, no: nat)
    requires was.rest == ['('] + ([')'] + now.rest) && no == was.nsub + 1 == now.nsub && now.sets == was.sets
    requires now.strip == was.strip + [Sop(OLPAREN, no)] + [Sop(ORPAREN, no)]
    ensures AtomDone(newline, was, now, EmptyGroup(no))
  {
    hide NodeCode, Code;
    CodeOne(Shut(no));
    ParenCodes(no);
    ConsCode(Open(no), Cons(Shut(no), Nil));
  }
}
