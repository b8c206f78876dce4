/**
  The compiler: reading an extended regular expression and laying its code out in the strip as it goes.
 */
module Regcomp {
  import opened Strip
  import opened Pattern
  import opened Spelling
  import opened Grammar
  import opened CharSets
  import opened Emit
  import opened Progress
  import B = Brackets
  import R = Repetition

  ghost function Now(p: Parse): (place: Place)
    reads p, p.store
    ensures place.rest == p.Rest() && place.strip == p.strip && place.nsub == p.nsub && place.sets == p.store.Live()
  {
    Place(p.Rest(), p.strip, p.store.Live(), p.nsub)
  }

  // Atoms

  /** What the first character tells of the atom that is due. */
  lemma AtomDue(s: Text, e: Atom, f: Text)
    requires s == SpellAtom(e) + f && AtomOk(e, f)
    ensures s != [] && (Special(s[0]) <==> !e.Plain?)
    ensures s[0] == '(' <==> e.Group? || e.EmptyGroup?
    ensures s[0] == '\\' <==> e.Quoted?
    ensures s[0] == '.' <==> e.Any?
    ensures s[0] == '[' <==> e.Bracket?
    ensures s[1..] == SpellAtom(e)[1..] + f
    ensures e.Plain? || e.Any? ==> SpellAtom(e)[1..] + f == f
  {
    hide SpellTree, SpellBrack, TreeOk, BrackOk;
    assert s[1..] == SpellAtom(e)[1..] + f;
    assert e.Plain? || e.Any? ==> SpellAtom(e)[1..] == [];
  }

  lemma PlainDone(newline: bool, was: Place, now: Place, a: Atom, c: Ch)
    requires (a == Plain(c) && PlainOk(c, now.rest) && was.rest == [c] + now.rest) || (a == Quoted(c) && was.rest == ['\\'] + ([c] + now.rest))
    requires now.strip == was.strip + [Sop(OCHAR, c as int)] && now.sets == was.sets && now.nsub == was.nsub
    ensures AtomDone(newline, was, now, a)
  {
    hide NodeCode, Code;
    CodeOne(Lit(c));
    LitCode(c);
  }

  lemma LitCode(c: Ch)
    ensures NodeCode(Lit(c)) == [Sop(OCHAR, c as int)] && NodeCode(Dot) == [Sop(OANY, 0)]
  {
  }

  lemma AnyDone(newline: bool, was: Place, now: Place, number: nat)
    requires was.rest == ['.'] + now.rest && now.nsub == was.nsub && was.sets <= now.sets
    requires newline ==> SetIs(now.sets, Others(true, {'\n'}), number)
    requires now.strip == was.strip + NodeCode(if newline then SetNode(Others(true, {'\n'}), number) else Dot)
    ensures AtomDone(newline, was, now, Any(number))
  {
    hide NodeCode, Code, SetNode, Others, SetIs;
    CodeOne(if newline then SetNode(Others(true, {'\n'}), number) else Dot);
  }

  lemma BracketDone(newline: bool, was: Place, now: Place, b: Brack, number: nat)
    requires was.rest == ['['] + (SpellBrack(b) + now.rest) && BrackOk(b, now.rest)
    requires now.nsub == was.nsub && was.sets <= now.sets && SetIs(now.sets, BrackSet(newline, b), number)
    requires now.strip == was.strip + NodeCode(SetNode(BrackSet(newline, b), number))
    ensures AtomDone(newline, was, now, Bracket(b, number))
  {
    hide NodeCode, Code, SetNode, BrackSet, SetIs, SpellBrack, BrackOk;
    CodeOne(SetNode(BrackSet(newline, b), number));
    Associate(['['], SpellBrack(b), now.rest);
  }

  /** Characters that cannot begin an atom. */
  predicate Misplaced(c: Ch) {
    c == ')' || c == '^' || c == '$' || c == '|' || c == '*' || c == '+' || c == '?'
  }

  method PMisplaced(p: Parse, c: Ch)
    requires p.Valid() && p.error == OK && Misplaced(c)
    modifies p`next, p`error, p`pattern
    ensures p.Valid() && p.error != OK
  {
    if c == ')' {
      p.SetError(EPAREN);
    } else if c == '|' {
      p.SetError(EMPTY);
    } else if c == '^' || c == '$' {
      p.SetError(OUTSIDE);   // anchors
    } else {
      p.SetError(BADRPT);
    }
  }

  /** An atom that is not a group, its first character c having been read. */
  method PSimple(p: Parse, c: Ch, ghost was: Place, ghost e: Atom, ghost f: Text) returns (ghost a: Atom)
    requires p.Valid() && p.error == OK && c != '('
    requires was == Now(p).(rest := [c] + p.Rest())
    modifies p`next, p`error, p`pattern, p`strip, p`ssize, p.store
    ensures p.Valid()
    ensures p.error == OK ==> AtomDone(p.newline, was, Now(p), a)
    ensures was.rest == SpellAtom(e) + f && AtomOk(e, f) ==> p.error == OK && p.Rest() == f
  {
    hide SetStore.Valid, SetStore.Live, Parse.Valid, Parse.Rest, AtomDone, AtomOk, SpellAtom, Others, SetNode, SetIs, BrackSet,
      SpellBrack, BrackOk, NodeCode, PlainOk;
    if was.rest == SpellAtom(e) + f && AtomOk(e, f) { SimpleDue(was.rest, c, p.Rest(), e, f); }
    a := Plain(c);
    if Misplaced(c) {
      PMisplaced(p, c);
    } else if c == '.' {
      a := PDot(p, was);
    } else if c == '[' {
      ghost var b, number;
      b, number := B.PBracket(p, if e.Bracket? then e.b else Brack(false, [], [], false), f);
      a := Bracket(b, number);
      if p.error == OK { BracketDone(p.newline, was, Now(p), b, number); }
    } else if c == '\\' {
      a := PBackslash(p, was, e, f);
    } else {
      PPlain(p, c, was);
    }
  }

  method PDot(p: Parse, ghost was: Place) returns (ghost a: Atom)
    requires p.Valid() && p.error == OK
    requires was == Now(p).(rest := ['.'] + p.Rest())
    modifies p`strip, p`ssize, p.store
    ensures p.Valid() && AtomDone(p.newline, was, Now(p), a)
  {
    hide SetStore.Valid, SetStore.Live, Parse.Valid, Parse.Rest, AtomDone, Others, SetNode, SetIs, NodeCode;
    ghost var number := 0;
    if p.newline {
      number := B.NonNewline(p);
    } else {
      LitCode('.');
      p.Emit(OANY, 0);
    }
    a := Any(number);
    AnyDone(p.newline, was, Now(p), number);
  }

  method PPlain(p: Parse, c: Ch, ghost was: Place)
    requires p.Valid() && p.error == OK && !Special(c)
    requires was == Now(p).(rest := [c] + p.Rest())
    modifies p`next, p`error, p`pattern, p`strip, p`ssize
    ensures p.Valid()
    ensures p.error == OK ==> p.next == old(p.next) && p.pattern == old(p.pattern) && AtomDone(p.newline, was, Now(p), Plain(c))
    ensures PlainOk(c, old(p.Rest())) ==> p.error == OK
  {
    hide SetStore.Valid, SetStore.Live, Parse.Valid, Parse.Rest, AtomDone;
    p.Require(c != '{' || !p.More() || !IsDigit(p.Peek()), BADRPT);
    B.Ordinary(p, c);
    if p.error == OK { PlainDone(p.newline, was, Now(p), Plain(c), c); }
  }

  method PBackslash(p: Parse, ghost was: Place, ghost e: Atom, ghost f: Text) returns (ghost a: Atom)
    requires p.Valid() && p.error == OK
    requires was == Now(p).(rest := ['\\'] + p.Rest())
    modifies p`next, p`error, p`pattern, p`strip, p`ssize
    ensures p.Valid()
    ensures p.error == OK ==> AtomDone(p.newline, was, Now(p), a)
    ensures e.Quoted? && old(p.Rest()) == [e.c] + f ==> p.error == OK && p.Rest() == f
  {
    hide SetStore.Valid, SetStore.Live, Parse.Valid, Parse.Rest, AtomDone;
    p.Require(p.More(), EESCAPE);
    var c := p.GetNext();
    B.Ordinary(p, c);
    a := Quoted(c);
    if p.error == OK { PlainDone(p.newline, was, Now(p), a, c); }
    if e.Quoted? && old(p.Rest()) == [e.c] + f { B.Cancel([e.c], p.Rest(), f); }
  }

  lemma SimpleDue(s: Text, c: Ch, r: Text, e: Atom, f: Text)
    requires s == [c] + r && c != '(' && s == SpellAtom(e) + f && AtomOk(e, f)
    ensures c != ')' && c != '^' && c != '$' && c != '|' && c != '*' && c != '+' && c != '?'
    ensures (c == '\\' <==> e.Quoted?) && (c == '.' <==> e.Any?) && (c == '[' <==> e.Bracket?)
    ensures e.Plain? || e.Any? ==> r == f
    ensures c != '\\' && c != '.' && c != '[' ==> e.Plain? && PlainOk(c, f)
    ensures e.Quoted? ==> r == [e.c] + f
    ensures e.Bracket? ==> r == SpellBrack(e.b) + f && BrackOk(e.b, f)
  {
    hide SpellTree, SpellBrack, TreeOk, BrackOk;
    AtomDue(s, e, f);
    assert s[1..] == r;
    assert e.Quoted? ==> SpellAtom(e)[1..] == [e.c];
    assert e.Bracket? ==> SpellAtom(e)[1..] == SpellBrack(e.b);
  }

  // Groups, pieces, branches, alternations

  /** How a piece, a branch, an expression begins: never with a bar or a right parenthesis. */
  lemma PieceBegins(e: Piece, f: Text)
    requires PieceOk(e, f)
    ensures SpellPiece(e) != [] && SpellPiece(e)[0] != '|' && SpellPiece(e)[0] != ')'
  {
    hide SpellRep, RepOk, SpellAtom, AtomOk;
    AtomDue(SpellAtom(e.atom) + (SpellRep(e.rep) + f), e.atom, SpellRep(e.rep) + f);
    AtomSpelled(e.atom);
  }

  lemma AtomSpelled(a: Atom)
    ensures SpellAtom(a) != []
  {
    hide SpellTree, SpellBrack;
  }

  lemma BranchBegins(e: Branch, f: Text)
    requires BranchOk(e, f) && e.Then?
    ensures SpellBranch(e) != [] && SpellBranch(e)[0] != '|' && SpellBranch(e)[0] != ')'
  {
    hide PieceOk, SpellPiece;
    PieceBegins(e.piece, SpellBranch(e.rest) + f);
  }

  lemma TreeBegins(e: Tree, f: Text)
    requires TreeOk(e, f)
    ensures SpellTree(e) != [] && SpellTree(e)[0] != ')'
  {
    hide BranchOk, SpellBranch;
    BranchBegins(e.branch, if e.Only? then f else ['|'] + SpellTree(e.more) + f);
  }

  /** Where a branch ends: at a bar, at the character its expression stops at, at the end. */
  predicate BranchEnds(f: Text, stop: int) {
    f != [] ==> f[0] == '|' || f[0] as int == stop
  }

  predicate Ends(f: Text, stop: int) {
    f != [] ==> f[0] as int == stop
  }

  const OUT := 256   // no character

  /** A group, its left parenthesis having been read. */
  method PGroup(p: Parse, ghost was: Place, ghost e: Atom, ghost f: Text) returns (ghost a: Atom)
    requires p.Valid() && p.error == OK
    requires was == Now(p).(rest := ['('] + p.Rest())
    modifies p, p.store
    ensures p.Valid() && |p.Rest()| <= |old(p.Rest())|
    ensures p.error == OK ==> AtomDone(p.newline, was, Now(p), a)
    ensures was.rest == SpellAtom(e) + f && AtomOk(e, f) ==> p.error == OK && p.Rest() == f
    decreases |p.Rest()|, 6
  {
    hide SetStore.Valid, SetStore.Live, Parse.Valid, Parse.Rest, AtomDone, TreeDone, SpellAtom, AtomOk;
    ghost var due := was.rest == SpellAtom(e) + f && AtomOk(e, f);
    ghost var t := if e.Group? then e.inner else Only(Done);
    if due { GroupDue(was.rest, p.Rest(), e, f); }
    p.Require(p.More(), EPAREN);
    p.nsub := p.nsub + 1;
    var subno := p.nsub;
    p.Emit(OLPAREN, subno);
    ghost var in0 := Now(p);
    ghost var full := !p.See(')');
    if !p.See(')') {
      t := PEre(p, ')' as int, t, [')'] + f);
    }
    ghost var in1 := Now(p);
    PShut(p, subno);
    a := if full then Group(subno, t) else EmptyGroup(subno);
    if p.error == OK {
      if due { B.Cancel([')'], p.Rest(), f); }
      GroupRead(p.newline, was, in0, in1, Now(p), full, t);
    }
    p.Halted();
  }

  method PShut(p: Parse, subno: nat)
    requires p.Valid()
    modifies p`next, p`error, p`pattern, p`strip, p`ssize
    ensures p.Valid() && (old(p.error) != OK ==> p.error == old(p.error))
    ensures p.error == OK <==> old(p.error == OK && p.See(')'))
    ensures p.error == OK ==> old(p.Rest()) == [')'] + p.Rest() && p.strip == old(p.strip) + [Sop(ORPAREN, subno)]
  {
    hide SetStore.Valid, Parse.Rest;
    p.Emit(ORPAREN, subno);
    p.Require(p.See(')'), EPAREN);
    if p.error == OK { var paren := p.GetNext(); }
  }

  lemma GroupRead(newline: bool, was: Place, in0: Place, in1: Place, now: Place, full: bool, t: Tree)
    requires full ==> TreeDone(newline, in0, in1, t)
    requires !full ==> in1 == in0
    requires was.rest == ['('] + in0.rest && in0.strip == was.strip + [Sop(OLPAREN, in0.nsub)]
    requires in0.nsub == was.nsub + 1 && in0.sets == was.sets
    requires in1.rest == [')'] + now.rest && now.strip == in1.strip + [Sop(ORPAREN, in0.nsub)]
    requires now.nsub == in1.nsub && now.sets == in1.sets
    ensures AtomDone(newline, was, now, if full then Group(in0.nsub, t) else EmptyGroup(in0.nsub))
  {
    hide TreeDone, AtomDone;
    if full {
      GroupDone(newline, was, in0, in1, now, t);
    } else {
      EmptyGroupDone(newline, was, now, in0.nsub);
    }
  }

  lemma GroupDue(s: Text, r: Text, e: Atom, f: Text)
    requires s == ['('] + r && s == SpellAtom(e) + f && AtomOk(e, f)
    ensures r != [] && (r[0] == ')' <==> e.EmptyGroup?) && (!e.EmptyGroup? ==> e.Group?)
    ensures e.EmptyGroup? ==> r == [')'] + f
    ensures e.Group? ==> r == SpellTree(e.inner) + ([')'] + f) && TreeOk(e.inner, [')'] + f)
  {
    hide SpellTree, SpellBrack, TreeOk, BrackOk;
    AtomDue(s, e, f);
    assert s[1..] == r;
    if e.Group? {
      TreeBegins(e.inner, [')'] + f);
      assert SpellAtom(e)[1..] == SpellTree(e.inner) + [')'];
      Associate(SpellTree(e.inner), [')'], f);
    } else {
      assert SpellAtom(e)[1..] == [')'];
    }
  }

  method PAtom(p: Parse, ghost e: Atom, ghost f: Text) returns (ghost a: Atom)
    requires p.Valid() && p.More()
    modifies p, p.store
    ensures p.Valid() && |p.Rest()| < |old(p.Rest())|
    ensures p.error == OK ==> AtomDone(p.newline, old(Now(p)), Now(p), a)
    ensures old(p.Due(SpellAtom(e), f)) && AtomOk(e, f) ==> p.error == OK && p.Rest() == f
    decreases |p.Rest()|, 0
  {
    hide SetStore.Valid, SetStore.Live, Parse.Valid, Parse.Rest, AtomDone, SpellAtom, AtomOk;
    p.Halted();
    ghost var was := Now(p);
    var c := p.GetNext();
    if c == '(' {
      a := PGroup(p, was, e, f);
    } else {
      a := PSimple(p, c, was, e, f);
      p.Halted();
      if p.error == OK { AtomRead(p.newline, was, Now(p), a); }
    }
  }

  lemma AtomRead(newline: bool, was: Place, now: Place, a: Atom)
    requires AtomDone(newline, was, now, a)
    ensures |now.rest| < |was.rest|
  {
    hide SpellAtom, AtomOk, Code, AtomRe, NumberedAtom, OrderedAtom, AtomGroups;
    AtomSpelled(a);
  }

  /** An atom, and the repetition that follows it, if one does. */
  method PEreExp(p: Parse, ghost e: Piece, ghost f: Text) returns (ghost x: Piece)
    requires p.Valid() && p.More()
    modifies p, p.store
    ensures p.Valid() && |p.Rest()| < |old(p.Rest())|
    ensures p.error == OK ==> PieceDone(p.newline, old(Now(p)), Now(p), x)
    ensures old(p.Due(SpellPiece(e), f)) && PieceOk(e, f) ==> p.error == OK && p.Rest() == f && x.rep == e.rep
    decreases |p.Rest()|, 1
  {
    hide SetStore.Valid, SetStore.Live, Parse.Valid, Parse.Rest, PieceDone, SpellAtom, SpellRep, AtomOk, RepOk, Code, AtomRe, RepRe,
      NumberedAtom, OrderedAtom;
    ghost var was := Now(p);
    var pos := |p.strip|;
    Associate(SpellAtom(e.atom), SpellRep(e.rep), f);
    ghost var a := PAtom(p, e.atom, SpellRep(e.rep) + f);
    ghost var mid := Now(p);
    ghost var r := R.PRep(p, pos, was.strip, AtomRe(p.newline, a), e.rep, f);
    x := Piece(a, r);
    if p.error == OK { RepeatedDone(p.newline, was, mid, Now(p), a, r); }
  }

  /** What is due of a branch. */
  ghost predicate BranchDue(rest: Text, e: Branch, f: Text) {
    rest == SpellBranch(e) + f && BranchOk(e, f)
  }

  /** The next of a bunch of concatenated expressions; e is what is due of them. */
  method PNext(p: Parse, stop: int, ghost e: Branch, ghost f: Text) returns (ghost x: Piece)
    requires p.Valid() && p.More() && p.Peek() != '|' && p.Peek() as int != stop
    modifies p, p.store
    ensures p.Valid() && |p.Rest()| < |old(p.Rest())|
    ensures p.error == OK ==> PieceDone(p.newline, old(Now(p)), Now(p), x)
    ensures old(p.error == OK && BranchDue(p.Rest(), e, f)) && BranchEnds(f, stop) ==>
      && p.error == OK && e.Then? && BranchDue(p.Rest(), e.rest, f)
      && (Vanishes(e) <==> To(x.rep) == 0 && Vanishes(e.rest))
    decreases |p.Rest()|, 2
  {
    hide SetStore.Valid, SetStore.Live, Parse.Valid, Parse.Rest, PieceDone, SpellPiece, PieceOk, SpellBranch, BranchOk, BranchEnds,
      Vanishes, To;
    if BranchDue(p.Rest(), e, f) && BranchEnds(f, stop) { MoreDue(p.Rest(), e, f, stop); }
    ghost var next := if e.Then? then e.piece else Piece(Plain('\0'), Once);
    ghost var rest := if e.Then? then e.rest else Done;
    x := PEreExp(p, next, SpellBranch(rest) + f);
  }

  /** A bunch of concatenated expressions. */
  method PBranch(p: Parse, stop: int, ghost e: Branch, ghost f: Text) returns (ghost b: Branch)
    requires p.Valid()
    modifies p, p.store
    ensures p.Valid() && |p.Rest()| <= |old(p.Rest())| && (old(p.error) != OK ==> p.error == old(p.error))
    ensures p.error == OK ==> BranchDone(p.newline, old(Now(p)), Now(p), b) && BranchEnds(p.Rest(), stop)
    ensures old(p.error == OK && BranchDue(p.Rest(), e, f)) && BranchEnds(f, stop) && (stop == OUT || stop == ')' as int) ==>
      p.error == OK && p.Rest() == f && (Vanishes(b) <==> Vanishes(e))
    decreases |p.Rest()|, 3
  {
    hide *;
    ghost var was := Now(p);
    ghost var due := p.error == OK && BranchDue(p.Rest(), e, f) && BranchEnds(f, stop) && (stop == OUT || stop == ')' as int);
    b := Done;
    ghost var more := e;
    DoneVanishes();
    NoneDone(p.newline, was);
    while p.More() && p.Peek() != '|' && p.Peek() as int != stop
      invariant p.Valid() && |p.Rest()| <= |old(p.Rest())| && (old(p.error) != OK ==> p.error == old(p.error))
      invariant p.error == OK ==> BranchDone(p.newline, was, Now(p), b)
      invariant due ==> p.error == OK && BranchDue(p.Rest(), more, f) && (Vanishes(e) <==> Vanishes(b) && Vanishes(more))
      decreases |p.Rest()|
    {
      ghost var mid := Now(p);
      p.Halted();
      ghost var x := PNext(p, stop, more, f);
      if p.error == OK { OneMoreDone(p.newline, was, mid, Now(p), b, x); }
      AddedPieceVanishes(b, x);
      b := AddPiece(b, x);
      if due { more := more.rest; }
    }
    p.Halted();
    EndOfBranch(p.Rest(), stop);
    if due { NoMoreDue(p.Rest(), more, f, stop); }
  }

  lemma {:induction false} AddedPieceVanishes(b: Branch, x: Piece)
    ensures Vanishes(AddPiece(b, x)) <==> Vanishes(b) && To(x.rep) == 0
    decreases b
  {
    hide To;
    if b.Then? { AddedPieceVanishes(b.rest, x); }
  }

  lemma DoneVanishes()
    ensures Vanishes(Done)
  {
  }

  lemma EndOfBranch(s: Text, stop: int)
    requires s != [] ==> s[0] == '|' || s[0] as int == stop
    ensures BranchEnds(s, stop)
  {
  }

  /** While the branch has not come to its end a piece is due. */
  lemma MoreDue(s: Text, e: Branch, f: Text, stop: int)
    requires BranchDue(s, e, f) && BranchEnds(f, stop)
    requires s != [] && s[0] != '|' && s[0] as int != stop
    ensures e.Then? && s == SpellPiece(e.piece) + (SpellBranch(e.rest) + f)
    ensures PieceOk(e.piece, SpellBranch(e.rest) + f) && BranchOk(e.rest, f)
    ensures Vanishes(e) <==> To(e.piece.rep) == 0 && Vanishes(e.rest)
  {
    hide SpellPiece, PieceOk, To;
    if e.Then? { Associate(SpellPiece(e.piece), SpellBranch(e.rest), f); }
    assert SpellBranch(Done) + f == f;
  }

  /** When it has come to its end, none is. */
  lemma NoMoreDue(s: Text, e: Branch, f: Text, stop: int)
    requires BranchDue(s, e, f) && (stop == OUT || stop == ')' as int)
    requires s != [] ==> s[0] == '|' || s[0] as int == stop
    ensures e == Done && s == f
  {
    hide SpellPiece, PieceOk;
    if e.Then? { BranchBegins(e, f); }
    assert SpellBranch(Done) + f == f;
  }

  /** The code of a branch that a bar follows: the first one, another one. */
  function BarCode(first: bool, x: Re): seq<Sop> {
    if first then [Sop(OCH_, Len(x) + 2)] + Code(x) + [Sop(OOR1, Len(x) + 1)]
    else [Sop(OOR2, Len(x) + 2)] + Code(x) + [Sop(OOR1, Len(x) + 2)]
  }

  /** What stands in the strip before a bar is seen to. */
  function OpenEnd(first: bool): seq<Sop> {
    if first then [] else [Sop(OOR2, 0)]
  }

  /** A bar: the branch x is complete, and the mark of the next one is put down. */
  method Bar(p: Parse, first: bool, conc: nat, prevback: int, prevfwd: int, ghost pre: seq<Sop>, ghost x: Re)
      returns (back: int, fwd: int)
    requires p.Valid()
    requires p.error == OK ==> p.strip == pre + OpenEnd(first) + Code(x) && conc == |pre + OpenEnd(first)|
    requires p.error == OK && !first ==> prevfwd == |pre| && prevback == |pre| - 1 >= 0
    modifies p`strip, p`ssize
    ensures p.Valid()
    ensures p.error == OK ==> p.strip == pre + BarCode(first, x) + [Sop(OOR2, 0)] && fwd == |p.strip| - 1 && back == fwd - 1
  {
    hide SetStore.Valid, Len, Code;
    back, fwd := prevback, prevfwd;
    if first {
      p.Insert(OCH_, conc);
      fwd := conc;
      back := conc;
    }
    ghost var mark := if first then Sop(OCH_, Len(x) + 1) else Sop(OOR2, 0);
    assert p.error == OK ==> p.strip == pre + [mark] + Code(x) && fwd == |pre|;
    back, fwd := BarMarks(p, back, fwd, pre, mark, x);
  }

  /** The end of the branch, its mark's offset, and the mark of the next branch. */
  method BarMarks(p: Parse, prevback: int, prevfwd: int, ghost pre: seq<Sop>, ghost mark: Sop, ghost x: Re) returns (back: int, fwd: int)
    requires p.Valid()
    requires p.error == OK ==> p.strip == pre + [mark] + Code(x) && prevfwd == |pre| && 0 <= prevback <= |pre|
    modifies p`strip, p`ssize
    ensures p.Valid()
    ensures p.error == OK ==>
      && p.strip == pre + ([Sop(mark.op, Len(x) + 2)] + Code(x) + [Sop(OOR1, |pre| + 1 + Len(x) - prevback)]) + [Sop(OOR2, 0)]
      && fwd == |p.strip| - 1 && back == fwd - 1
  {
    hide SetStore.Valid, Parse.Valid, Len, Code;
    ghost var s0 := p.strip;
    p.Astern(OOR1, prevback);
    back := |p.strip| - 1;
    ghost var s1 := p.strip;
    if p.error == OK { Marked(pre, mark, Code(x), s0, s1, Sop(mark.op, Len(x) + 2)); }
    p.Ahead(prevfwd);
    fwd := |p.strip|;
    p.Emit(OOR2, 0);
  }

  /** A strip that ends in a mark and a code, with one operator more, and the mark replaced. */
  lemma Marked(pre: seq<Sop>, mark: Sop, code: seq<Sop>, s0: seq<Sop>, s1: seq<Sop>, n: Sop)
    requires s0 == pre + [mark] + code && |s1| == |s0| + 1 && s1[..|s0|] == s0
    ensures |s0| == |pre| + 1 + |code| && s1[|pre|] == mark
    ensures s1[|pre| := n] == pre + ([n] + code + [s1[|s0|]])
  {
    var last := s1[|s0|];
    assert s1 == s0 + [last];
    assert pre + [mark] + code + [last] == pre + ([mark] + (code + [last]));
    Patched(pre, mark, code + [last], n, s1);
    assert [n] + (code + [last]) == [n] + code + [last];
  }

  lemma Patched(pre: seq<Sop>, m: Sop, tail: seq<Sop>, n: Sop, strip: seq<Sop>)
    requires |strip| == |pre| + 1 + |tail| && strip == pre + ([m] + tail)
    ensures strip[|pre|] == m && strip[|pre| := n] == pre + ([n] + tail)
  {
  }

  function TailCode(x: Re): seq<Sop> {
    [Sop(OOR2, Len(x) + 1)] + Code(x) + [Sop(O_CH, Len(x) + 2)]
  }

  /** The last branch x is complete. */
  method Tail(p: Parse, prevback: int, prevfwd: int, ghost pre: seq<Sop>, ghost x: Re)
    requires p.Valid()
    requires p.error == OK ==> p.strip == pre + [Sop(OOR2, 0)] + Code(x) && prevfwd == |pre| && prevback == |pre| - 1 >= 0
    modifies p`strip, p`ssize
    ensures p.Valid()
    ensures p.error == OK ==> p.strip == pre + TailCode(x)
  {
    hide SetStore.Valid, Len, Code;
    p.Ahead(prevfwd);
    p.Astern(O_CH, prevback);
  }

  /** What is due of an expression, its branches up to a bar having been read. */
  ghost predicate TreeDue(rest: Text, e: Tree, f: Text) {
    rest == SpellTree(e) + f && TreeOk(e, f)
  }

  /** The first branch of what is due. */
  function FirstFollow(e: Tree, f: Text): Text {
    if e.Or? then ['|'] + SpellTree(e.more) + f else f
  }

  lemma FirstDue(s: Text, e: Tree, f: Text, stop: int)
    requires TreeDue(s, e, f) && Ends(f, stop)
    ensures s == SpellBranch(e.branch) + FirstFollow(e, f) && BranchOk(e.branch, FirstFollow(e, f)) && !Vanishes(e.branch)
    ensures BranchEnds(FirstFollow(e, f), stop)
  {
    hide SpellBranch, BranchOk, Vanishes;
    if e.Or? {
      assert SpellTree(e) == SpellBranch(e.branch) + ['|'] + SpellTree(e.more);
      Associate(SpellBranch(e.branch), ['|'], SpellTree(e.more));
      Associate(SpellBranch(e.branch), ['|'] + SpellTree(e.more), f);
    }
  }

  lemma TreeIsDue(s: Text, e: Tree, f: Text)
    ensures s == SpellTree(e) + f && TreeOk(e, f) <==> TreeDue(s, e, f)
  {
    hide SpellTree, TreeOk;
  }

  /** There is a bar just when another branch is due. */
  lemma BarDue(s: Text, e: Tree, f: Text, stop: int)
    requires TreeDue(s, e, f) && Ends(f, stop) && (stop == OUT || stop == ')' as int)
    ensures Begins(FirstFollow(e, f), '|') <==> e.Or?
    ensures e.Only? ==> FirstFollow(e, f) == f
    ensures e.Or? ==> TreeDue(FirstFollow(e, f)[1..], e.more, f)
  {
    hide SpellBranch, BranchOk, Vanishes;
    if e.Or? { assert FirstFollow(e, f) == ['|'] + (SpellTree(e.more) + f); }
  }

  /** The next branch begins here: the first, or one after those in t and a bar. */
  ghost predicate Starts(newline: bool, was: Place, now: Place, first: bool, t: Tree) {
    if first then now == was else OpenDone(newline, was, now, t)
  }

  /** What stands in the strip before the code of the branch and its mark. */
  ghost function Before(newline: bool, was: Place, first: bool, t: Tree): seq<Sop> {
    if first then was.strip else was.strip + OpenCode(newline, t)
  }

  lemma StartsFirst(newline: bool, was: Place, t: Tree)
    ensures Starts(newline, was, was, true, t)
  {
  }

  lemma StartStrip(newline: bool, was: Place, begin: Place, first: bool, t: Tree)
    requires Starts(newline, was, begin, first, t)
    ensures begin.strip == Before(newline, was, first, t) + OpenEnd(first)
    ensures !first ==> |Before(newline, was, first, t)| > 0
  {
    hide SpellTree, TreeOk, Numbered, Ordered, Groups, OpenCode;
  }

  lemma BranchLeaves(newline: bool, begin: Place, end: Place, b: Branch)
    requires BranchDone(newline, begin, end, b)
    ensures end.strip == begin.strip + Code(BranchRe(newline, b))
    ensures |end.strip| == |begin.strip| <==> Vanishes(b)
  {
    hide SpellBranch, BranchOk, NumberedBranch, OrderedBranch, BranchGroups, BranchRe, Code, Vanishes, Len;
    VanishesIff(newline, b, end.rest);
  }

  function Joined(first: bool, t: Tree, b: Branch): Tree {
    if first then Only(b) else AddBranch(t, b)
  }

  lemma BarDone(newline: bool, was: Place, begin: Place, end: Place, now: Place, first: bool, t: Tree, b: Branch)
    requires Starts(newline, was, begin, first, t) && BranchDone(newline, begin, end, b) && !Vanishes(b)
    requires end.rest == ['|'] + now.rest && now.sets == end.sets && now.nsub == end.nsub
    requires now.strip == Before(newline, was, first, t) + BarCode(first, BranchRe(newline, b)) + [Sop(OOR2, 0)]
    ensures Starts(newline, was, now, false, Joined(first, t, b))
  {
    hide OpenDone, BranchDone, Vanishes, Code, Len, BranchRe, AddBranch;
    var x := BranchRe(newline, b);
    if first {
      assert OpenCode(newline, Only(b)) == BarCode(true, x) + [];
      assert BarCode(true, x) + [] == BarCode(true, x);
      FirstDone(newline, was, end, now, b);
    } else {
      NextDone(newline, was, begin, end, now, t, b);
    }
  }

  lemma AllDone(newline: bool, was: Place, begin: Place, end: Place, now: Place, first: bool, t: Tree, b: Branch)
    requires Starts(newline, was, begin, first, t) && BranchDone(newline, begin, end, b) && !Vanishes(b)
    requires end.rest == now.rest && now.sets == end.sets && now.nsub == end.nsub
    requires now.strip == if first then end.strip else Before(newline, was, first, t) + TailCode(BranchRe(newline, b))
    ensures TreeDone(newline, was, now, Joined(first, t, b))
  {
    hide OpenDone, BranchDone, TreeDone, Vanishes, Code, Len, BranchRe, AddBranch, OpenCode;
    if first {
      assert now == end;
      OnlyDone(newline, was, now, b);
    } else {
      LastDone(newline, was, begin, end, now, t, b);
    }
  }

  /** One branch, which must not be empty; e is what is due of the expression. */
  method PAlternative(p: Parse, stop: int, ghost e: Tree, ghost f: Text) returns (ghost b: Branch)
    requires p.Valid()
    modifies p, p.store
    ensures p.Valid() && |p.Rest()| <= |old(p.Rest())| && (old(p.error) != OK ==> p.error == old(p.error))
    ensures p.error == OK ==>
      && BranchDone(p.newline, old(Now(p)), Now(p), b) && !Vanishes(b) && BranchEnds(p.Rest(), stop)
      && p.strip == old(p.strip) + Code(BranchRe(p.newline, b))
    ensures old(p.error == OK && TreeDue(p.Rest(), e, f)) && Ends(f, stop) && (stop == OUT || stop == ')' as int) ==>
      && p.error == OK && (Begins(p.Rest(), '|') <==> e.Or?)
      && (e.Only? ==> p.Rest() == f)
      && (e.Or? ==> TreeDue(p.Rest()[1..], e.more, f))
    decreases |p.Rest()|, 4
  {
    hide SetStore.Valid, SetStore.Live, Parse.Valid, Parse.Rest, BranchDone, SpellTree, SpellBranch, TreeOk, BranchOk, TreeDue,
      BranchEnds, Vanishes, FirstFollow, Code, BranchRe, Ends;
    ghost var was := Now(p);
    if p.error == OK && TreeDue(p.Rest(), e, f) && Ends(f, stop) && (stop == OUT || stop == ')' as int) {
      FirstDue(was.rest, e, f, stop);
      BarDue(was.rest, e, f, stop);
    }
    var conc := |p.strip|;
    b := PBranch(p, stop, e.branch, FirstFollow(e, f));
    if p.error == OK { BranchLeaves(p.newline, was, Now(p), b); }
    p.Require(|p.strip| != conc, EMPTY);
    p.Halted();
  }

  /** An expression: branches separated by bars. */
  method PEre(p: Parse, stop: int, ghost e: Tree, ghost f: Text) returns (ghost t: Tree)
    requires p.Valid()
    modifies p, p.store
    ensures p.Valid() && |p.Rest()| <= |old(p.Rest())| && (old(p.error) != OK ==> p.error == old(p.error))
    ensures p.error == OK ==> TreeDone(p.newline, old(Now(p)), Now(p), t) && Ends(p.Rest(), stop)
    ensures old(p.error == OK && TreeDue(p.Rest(), e, f)) && Ends(f, stop) && (stop == OUT || stop == ')' as int) ==>
      p.error == OK && p.Rest() == f
    decreases |p.Rest()|, 5
  {
    hide SetStore.Valid, SetStore.Live, Parse.Valid, Parse.Rest, BranchDone, TreeDone, OpenDone, SpellTree, TreeOk, TreeDue,
      BranchEnds, Vanishes, FirstFollow, BarCode, TailCode, Code, Len, OpenCode, BranchRe, Ends, Joined, Before, Starts;
    ghost var was := Now(p);
    ghost var due := p.error == OK && TreeDue(p.Rest(), e, f) && Ends(f, stop) && (stop == OUT || stop == ')' as int);
    ghost var more := e;
    var prevback, prevfwd, first := 0, 0, true;
    var conc := |p.strip|;
    ghost var begin, end, b := was, was, Done;
    t := Only(Done);
    StartsFirst(p.newline, was, t);
    while true
      invariant p.Valid() && |p.Rest()| <= |old(p.Rest())| && (old(p.error) != OK ==> p.error == old(p.error))
      invariant p.error == OK ==> Starts(p.newline, was, Now(p), first, t)
      invariant p.error == OK && !first ==> prevfwd == |p.strip| - 1 && prevback == prevfwd - 1
      invariant due ==> p.error == OK && TreeDue(p.Rest(), more, f)
      decreases |p.Rest()|
    {
      begin := Now(p);
      conc := |p.strip|;
      b := PAlternative(p, stop, more, f);
      end := Now(p);
      var bar := p.Eat('|');
      if !bar { break; }
      p.Halted();
      prevback, prevfwd := PBar(p, first, conc, prevback, prevfwd, was, begin, end, t, b);
      if due {
        assert p.Rest() == end.rest[1..];
        more := more.more;
      }
      t := Joined(first, t, b);
      first := false;
    }
    t := PTail(p, first, prevback, prevfwd, was, begin, t, b);
    if p.error == OK { EndOfTree(p.Rest(), stop); }
    p.Halted();
  }

  /** A bar. */
  method PBar(p: Parse, first: bool, conc: nat, prevback: int, prevfwd: int,
              ghost was: Place, ghost begin: Place, ghost end: Place, ghost t: Tree, ghost b: Branch)
      returns (back: int, fwd: int)
    requires p.Valid() && p.error == OK && conc == |begin.strip|
    requires Starts(p.newline, was, begin, first, t) && BranchDone(p.newline, begin, end, b) && !Vanishes(b)
    requires end == Now(p).(rest := ['|'] + p.Rest()) && end.strip == begin.strip + Code(BranchRe(p.newline, b))
    requires !first ==> prevfwd == conc - 1 && prevback == prevfwd - 1
    modifies p`strip, p`ssize
    ensures p.Valid() && Starts(p.newline, was, Now(p), false, Joined(first, t, b))
    ensures fwd == |p.strip| - 1 && back == fwd - 1
  {
    hide SetStore.Valid, SetStore.Live, Parse.Valid, Parse.Rest, BranchDone, Vanishes, BarCode, Code, Len, BranchRe,
      Joined, Before, Starts;
    StartStrip(p.newline, was, begin, first, t);
    back, fwd := Bar(p, first, conc, prevback, prevfwd, Before(p.newline, was, first, t), BranchRe(p.newline, b));
    BarDone(p.newline, was, begin, end, Now(p), first, t, b);
  }

  /** Tail-end fixups. */
  method PTail(p: Parse, first: bool, prevback: int, prevfwd: int, ghost was: Place, ghost begin: Place, ghost open: Tree, ghost b: Branch)
      returns (ghost t: Tree)
    requires p.Valid()
    requires p.error == OK ==>
      && Starts(p.newline, was, begin, first, open) && BranchDone(p.newline, begin, Now(p), b) && !Vanishes(b)
      && p.strip == begin.strip + Code(BranchRe(p.newline, b))
    requires p.error == OK && !first ==> prevfwd == |begin.strip| - 1 && prevback == prevfwd - 1
    modifies p`strip, p`ssize
    ensures p.Valid()
    ensures p.error == OK ==> TreeDone(p.newline, was, Now(p), t)
  {
    hide SetStore.Valid, SetStore.Live, Parse.Valid, Parse.Rest, BranchDone, TreeDone, Vanishes, TailCode, Code, Len, BranchRe,
      Joined, Before, Starts;
    ghost var end := Now(p);
    if p.error == OK { StartStrip(p.newline, was, begin, first, open); }
    if !first {
      Tail(p, prevback, prevfwd, Before(p.newline, was, first, open), BranchRe(p.newline, b));
    }
    t := Joined(first, open, b);
    if p.error == OK { AllDone(p.newline, was, begin, end, Now(p), first, open, b); }
  }

  lemma EndOfTree(s: Text, stop: int)
    requires BranchEnds(s, stop) && !Begins(s, '|')
    ensures Ends(s, stop)
  {
  }
}
