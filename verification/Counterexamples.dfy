/**
  Patterns that show what the library does not promise.
 */
module Counterexamples {
  import opened Strip
  import opened Language
  import opened Pattern
  import opened Spelling
  import opened Grammar
  import opened Automaton
  import opened Runs
  import opened Engine
  import opened Dissection
  import opened Execution
  import opened Iterations
  import G = Regex
  import U = Unambiguous
  import S = SearchProperties
  import D = Readings
  import W = PatternLaws
  import P = GroupSpans
  import L = GroupLaws

  // Words of letters, and a group with what is behind it

  function Word(s: Text): Branch {
    if s == [] then Done else Then(Piece(Plain(s[0]), Once), Word(s[1..]))
  }

  function Lits(s: Text): Re {
    if s == [] then Nil else Cons(Lit(s[0]), Lits(s[1..]))
  }

  /** A group repeated as r says, and then a word. */
  function OneGroup(no: nat, inner: Tree, r: Rep, tail: Text): Tree {
    Only(Then(Piece(Group(no, inner), r), Word(tail)))
  }

  predicate Letters(s: Text) {
    forall i :: 0 <= i < |s| ==> 'a' <= s[i] <= 'z'
  }

  lemma {:induction false} WordReads(s: Text, follow: Text)
    requires Letters(s) && !Repeats(follow)
    ensures SpellBranch(Word(s)) == s && BranchOk(Word(s), follow) && (s != [] ==> !Vanishes(Word(s)))
    decreases |s|
  {
    if s != [] {
      WordReads(s[1..], follow);
      assert s == [s[0]] + s[1..];
      assert !Repeats(s[1..] + follow) by { if |s| > 1 { assert (s[1..] + follow)[0] == s[1]; } else { assert s[1..] + follow == follow; } }
      assert SpellRep(Once) == [] && SpellPiece(Piece(Plain(s[0]), Once)) == [s[0]];
    }
  }

  lemma {:induction false} WordRe(s: Text, newline: bool)
    ensures BranchRe(newline, Word(s)) == Lits(s)
    decreases |s|
  {
    if s != [] {
      WordRe(s[1..], newline);
      assert PieceRe(newline, Piece(Plain(s[0]), Once)) == Cons(Lit(s[0]), Nil);
      assert Append(Nil, Lits(s[1..])) == Lits(s[1..]);
    }
  }

  lemma {:induction false} LitsMatch(sets: Sets, s: Text, w: Text)
    ensures Matches(sets, Lits(s), w) <==> w == s
    decreases |s|
  {
    hide Matches;
    if s == [] {
      MatchesNil(sets, w);
    } else {
      if Matches(sets, Lits(s), w) {
        var i := MatchesUncons(sets, Lit(s[0]), Lits(s[1..]), w);
        LitsMatch(sets, s[1..], w[i..]);
        assert w == w[..i] + w[i..];
      }
      LitsMatch(sets, s[1..], s[1..]);
      MatchesCons(sets, Lit(s[0]), Lits(s[1..]), [s[0]], s[1..]);
      assert [s[0]] + s[1..] == s;
    }
  }

  /** No atom but characters. */
  predicate AllPlain(t: Tree) {
    PlainBranch(t.branch) && (t.Or? ==> AllPlain(t.more))
  }

  predicate PlainBranch(b: Branch) {
    b.Then? ==> b.piece.atom.Plain? && PlainBranch(b.rest)
  }

  lemma {:induction false} WordIsPlain(s: Text)
    ensures PlainBranch(Word(s))
    decreases |s|
  {
    if s != [] { WordIsPlain(s[1..]); }
  }

  lemma {:induction false} SameIfPlain(t: Tree, u: Tree)
    requires U.Bare(t) == U.Bare(u) && AllPlain(u)
    ensures t == u && Groups(u) == 0
    decreases u
  {
    SameBranchIfPlain(t.branch, u.branch);
    if u.Or? { SameIfPlain(t.more, u.more); }
  }

  lemma {:induction false} SameBranchIfPlain(b: Branch, c: Branch)
    requires U.BareBranch(b) == U.BareBranch(c) && PlainBranch(c)
    ensures b == c && BranchGroups(c) == 0
    decreases c
  {
    if c.Then? { SameBranchIfPlain(b.rest, c.rest); }
  }

  /** All readings of such a pattern are alike but for the number of the group. */
  lemma ReadingIs(t: Tree, pattern: Text, inner: Tree, r: Rep, tail: Text) returns (no: nat)
    requires U.Reads(t, pattern) && U.Reads(OneGroup(1, inner, r, tail), pattern) && AllPlain(inner)
    ensures t == OneGroup(no, inner, r, tail) && Groups(t) == 1
  {
    hide U.Reads, U.Bare, OneGroup, Groups;
    U.OneReading(false, t, OneGroup(1, inner, r, tail), pattern, []);
    no := BareGroup(t, inner, r, tail);
  }

  lemma BareGroup(t: Tree, inner: Tree, r: Rep, tail: Text) returns (no: nat)
    requires U.Bare(t) == U.Bare(OneGroup(1, inner, r, tail)) && AllPlain(inner)
    ensures t == OneGroup(no, inner, r, tail) && Groups(t) == 1
  {
    hide Word, AllPlain;
    WordIsPlain(tail);
    var b, c := t.branch, Then(Piece(Group(1, inner), r), Word(tail));
    assert U.BareBranch(b) == U.BareBranch(c) && t.Only?;
    assert U.BareAtom(b.piece.atom) == U.BareAtom(Group(1, inner)) == Group(0, U.Bare(inner));
    SameBranchIfPlain(b.rest, Word(tail));
    SameIfPlain(t.branch.piece.atom.inner, inner);
    no := t.branch.piece.atom.no;
    assert Groups(t) == BranchGroups(b) == 1 + Groups(inner) + BranchGroups(b.rest);
  }

  /** What is laid out for the group. */
  ghost function GroupRe(newline: bool, no: nat, inner: Tree): Re {
    Cons(Open(no), Append(TreeRe(newline, inner), Cons(Shut(no), Nil)))
  }

  lemma OneGroupRe(newline: bool, no: nat, inner: Tree, r: Rep, tail: Text)
    requires r == Once || r == Plus
    ensures TreeRe(newline, OneGroup(no, inner, r, tail)) ==
      if r == Once then Append(GroupRe(newline, no, inner), Lits(tail)) else Cons(Loop(GroupRe(newline, no, inner)), Lits(tail))
  {
    hide Word, Lits;
    WordRe(tail, newline);
    var p := Piece(Group(no, inner), r);
    assert PieceRe(newline, p) == RepRe(GroupRe(newline, no, inner), r);
    assert Append(Nil, Lits(tail)) == Lits(tail);
    assert Append(Cons(Loop(GroupRe(newline, no, inner)), Nil), Lits(tail)) == Cons(Loop(GroupRe(newline, no, inner)), Lits(tail));
  }

  /** In a program that number is 1. */
  lemma NumberIsOne(g: Guts, newline: bool, no: nat, inner: Tree, r: Rep, tail: Text)
    requires G.Program(g, newline, OneGroup(no, inner, r, tail))
    ensures no == 1
  {
    hide Numbered, Groups, Compiled, TreeRe, Word;
    assert OrderedBranch(OneGroup(no, inner, r, tail).branch, 0);
    assert OrderedAtom(Group(no, inner), 0);
  }

  // A branch that leaves no code is refused

  /** What is written as a branch of which every piece is repeated zero times has no reading. */
  lemma VanishingRefused(b: Branch)
    requires BranchOk(b, []) && Vanishes(b)
    ensures !U.WellFormed(SpellBranch(b))
  {
    hide SpellBranch, BranchOk;
    forall t | U.Reads(t, SpellBranch(b))
      ensures false
    {
      U.TreeFirst(t, []);
      assert SpellTree(t) + [] == SpellBranch(b) + [];
      var f := U.C.FirstFollow(t, []);
      U.SameBranch(t.branch, f, b, []);
      BareVanishes(t.branch);
      BareVanishes(b);
    }
  }

  lemma {:induction false} BareVanishes(b: Branch)
    ensures Vanishes(U.BareBranch(b)) <==> Vanishes(b)
    decreases b
  {
    hide To;
    if b.Then? { BareVanishes(b.rest); }
  }

  lemma ZeroTimesRefused()
    ensures !U.WellFormed("x{0}")
  {
    var b := Then(Piece(Plain('x'), Bound("0", Exactly)), Done);
    assert SpellBranch(Done) == [];
    assert SpellRep(Bound("0", Exactly)) == "{0}";
    assert SpellBranch(b) == "x{0}";
    assert Number("0"[..0]) == 0;
    assert Number("0") == 0;
    VanishingRefused(b);
  }

  // (z*|x)b: the match reported need not be the leftmost

  function LeftInner(): Tree {
    Or(Then(Piece(Plain('z'), Star), Done), Only(Word("x")))
  }

  lemma LeftReads()
    ensures AllPlain(LeftInner()) && U.Reads(OneGroup(1, LeftInner(), Once, "b"), "(z*|x)b")
  {
    var z := Then(Piece(Plain('z'), Star), Done);
    var f := [')'] + (SpellRep(Once) + (SpellBranch(Word("b")) + []));
    WordReads("x", f);
    WordReads("b", []);
    WordIsPlain("x");
    assert SpellBranch(Done) == [] && SpellPiece(Piece(Plain('z'), Star)) == "z*";
    assert SpellBranch(z) == "z*" && SpellTree(Only(Word("x"))) == "x";
    assert SpellTree(LeftInner()) == "z*|x";
    assert BranchOk(z, ['|'] + "x" + f);
    assert TreeOk(LeftInner(), f);
    var p := Piece(Group(1, LeftInner()), Once);
    assert SpellPiece(p) == "(z*|x)";
    assert PieceOk(p, "b" + []);
  }

  lemma LeftRe()
    ensures TreeRe(false, OneGroup(1, LeftInner(), Once, "b")) == S.Z_OR_X_THEN_B
  {
    OneGroupRe(false, 1, LeftInner(), Once, "b");
    WordRe("x", false);
    assert Lits("x") == S.X && Lits("b") == S.B;
    var z := Then(Piece(Plain('z'), Star), Done);
    assert PieceRe(false, z.piece) == S.Z;
    assert BranchRe(false, z) == Append(S.Z, Nil) == S.Z;
    assert TreeRe(false, LeftInner()) == Cons(S.Z_OR_X, Nil);
  }

  const PLAINLY := Eflags(false, false, false)

  lemma Whole(text: Text, before: seq<Span>)
    requires forall i :: 0 <= i < |text| ==> text[i] != '\0'
    ensures Bounds(text, before, PLAINLY) == (0, |text|)
  {
    assert StrLen(text) == |text|;
  }

  /** Whatever program and request: of xb, which the pattern means, the b alone is reported. */
  lemma LeftmostFails(g: Guts, t: Tree, before: seq<Span>, nmatch: nat, rc: Rc, after: seq<Span>)
    requires U.Reads(t, "(z*|x)b") && G.Program(g, false, t) && 0 < |g.strip| - 1 && nmatch <= |before|
    requires Outcome(g, TreeRe(false, t), "xb", before, nmatch, PLAINLY, rc, after)
    ensures U.Means(false, "(z*|x)b", "xb") && rc == OKAY
    ensures nmatch > 0 && !g.nosub ==> |after| > 0 && after[0] == Span(1, 2)
  {
    hide U.Reads, U.Means, TreeRe, OneGroup, Compiled, Numbered, Groups, Reported, GroupsReported, Matches, S.Leftmost;
    var text: Text := "xb";
    LeftReads();
    var no := ReadingIs(t, "(z*|x)b", LeftInner(), Once, "b");
    NumberIsOne(g, false, no, LeftInner(), Once, "b");
    LeftRe();
    assert text == ['x', 'b'];
    S.LeftmostCanFail(g, text);
    Whole(text, before);
    assert text[0..2] == text;
    G.ProgramMeans(g, false, t, "(z*|x)b", text);
    assert MatchIn(g.sets, S.Z_OR_X_THEN_B, text, 0, 2);
  }

  // (ab|abc|cd)+: the last iteration need not end where the match does

  function LoopInner(): Tree {
    Or(Word("ab"), Or(Word("abc"), Only(Word("cd"))))
  }

  const BODY: Re := Cons(Open(1), Cons(Choice(Lits("ab"), More(Lits("abc"), Last(Lits("cd")))), Cons(Shut(1), Nil)))
  const LOOP: Re := Cons(Loop(BODY), Nil)

  lemma LoopReads()
    ensures AllPlain(LoopInner()) && U.Reads(OneGroup(1, LoopInner(), Plus, ""), "(ab|abc|cd)+")
  {
    hide Word, SpellTree, TreeOk, AllPlain;
    var f := [')'] + SpellRep(Plus);
    var cd, more := Only(Word("cd")), Or(Word("abc"), Only(Word("cd")));
    LastWord("cd", f);
    OneMoreWord("abc", cd, f);
    OneMoreWord("ab", more, f);
    assert SpellTree(LoopInner()) == "ab|abc|cd";
    var p := Piece(Group(1, LoopInner()), Plus);
    assert SpellPiece(p) == "(ab|abc|cd)+" && SpellRep(Plus) == "+";
    assert f + [] == f && SpellRep(Plus) + [] == SpellRep(Plus);
    assert PieceOk(p, []);
    NoWord(p);
  }

  lemma LastWord(s: Text, f: Text)
    requires Letters(s) && s != [] && !Repeats(f)
    ensures TreeOk(Only(Word(s)), f) && SpellTree(Only(Word(s))) == s && AllPlain(Only(Word(s)))
  {
    WordReads(s, f);
    WordIsPlain(s);
  }

  lemma OneMoreWord(s: Text, more: Tree, f: Text)
    requires Letters(s) && s != [] && TreeOk(more, f) && AllPlain(more)
    ensures TreeOk(Or(Word(s), more), f) && SpellTree(Or(Word(s), more)) == s + ['|'] + SpellTree(more) && AllPlain(Or(Word(s), more))
  {
    hide Word, BranchOk, Vanishes;
    WordReads(s, ['|'] + SpellTree(more) + f);
    WordIsPlain(s);
  }

  /** A piece, and nothing behind it, is a pattern. */
  lemma NoWord(p: Piece)
    requires PieceOk(p, []) && To(p.rep) != 0
    ensures U.Reads(Only(Then(p, Word(""))), SpellPiece(p))
  {
    hide PieceOk, SpellPiece, To;
    var b := Then(p, Done);
    assert Word("") == Done && SpellBranch(Done) == [];
    assert SpellBranch(b) == SpellPiece(p) + [] == SpellPiece(p);
    assert SpellBranch(b.rest) + [] == [];
    assert BranchOk(b.rest, []);
    assert BranchOk(b, []);
    assert !Vanishes(b);
    assert SpellTree(Only(b)) == SpellBranch(b);
    assert TreeOk(Only(b), []);
  }

  lemma LoopRe()
    ensures TreeRe(false, OneGroup(1, LoopInner(), Plus, "")) == LOOP
  {
    hide Word, Lits;
    OneGroupRe(false, 1, LoopInner(), Plus, "");
    WordRe("ab", false);
    WordRe("abc", false);
    WordRe("cd", false);
    assert Lits("") == Nil by { NoLits(); }
    assert TreeAlts(false, Or(Word("abc"), Only(Word("cd")))) == More(Lits("abc"), Last(Lits("cd")));
    assert TreeRe(false, LoopInner()) == Cons(BODY.tail.head, Nil);
    assert Append(Cons(BODY.tail.head, Nil), Cons(Shut(1), Nil)) == BODY.tail;
  }

  lemma NoLits()
    ensures Lits("") == Nil
  {
  }

  predicate IsIteration(w: Text) {
    w == "ab" || w == "abc" || w == "cd"
  }

  lemma BodyMatches(sets: Sets, w: Text)
    ensures Matches(sets, BODY, w) <==> IsIteration(w)
  {
    hide Matches, Lits;
    var choice := BODY.tail.head;
    LitsMatch(sets, "ab", w);
    LitsMatch(sets, "abc", w);
    LitsMatch(sets, "cd", w);
    MatchesOne(sets, choice, w);
    GroupMatches(sets, 1, Cons(choice, Nil), w);
    assert Append(Cons(choice, Nil), Cons(Shut(1), Nil)) == BODY.tail;
  }

  lemma Iteration(sets: Sets)
    ensures LastIteration(sets, BODY, "abcd", 0, 0, 4) == (0, 3)
  {
    hide Matches, Longest;
    var text: Text := "abcd";
    forall a, k | 0 <= a <= k <= 4
      ensures Matches(sets, BODY, text[a..k]) <==> IsIteration(text[a..k])
    {
      BodyMatches(sets, text[a..k]);
    }
    assert text[0..3] == "abc";
    LongestIs(sets, BODY, text, 0, 4, 3);
    LongestIs(sets, BODY, text, 3, 4, -1);
  }

  // What the loop matches

  lemma LoopMatches(sets: Sets)
    ensures Matches(sets, LOOP, "ab") && Matches(sets, LOOP, "abcd")
    ensures !Matches(sets, LOOP, "") && !Matches(sets, LOOP, "b")
  {
    hide Matches, Power;
    forall w
      ensures Matches(sets, LOOP, w) <==> MatchesNode(sets, Loop(BODY), w)
    {
      MatchesOne(sets, Loop(BODY), w);
    }
    BodyMatches(sets, "ab");
    BodyMatches(sets, "cd");
    PowerOne(sets, BODY, "ab");
    PowerSnoc(sets, BODY, 1, "ab", "cd");
    assert "ab" + "cd" == "abcd";
    TooShort(sets, "");
    TooShort(sets, "b");
  }

  lemma TooShort(sets: Sets, w: Text)
    requires |w| < 2
    ensures !MatchesNode(sets, Loop(BODY), w)
  {
    hide Matches, Power;
    if MatchesNode(sets, Loop(BODY), w) {
      var k := LoopTimes(sets, Loop(BODY), w);
      var i := PowerSplit(sets, BODY, 1, k - 1, w);
      PowerOne(sets, BODY, w[..i]);
      BodyMatches(sets, w[..i]);
    }
  }

  /** The group gets the stretch of the last iteration. */
  lemma LoopDissected(sets: Sets, pm: seq<Span>)
    requires |pm| == 2
    ensures Dissected(sets, LOOP, "abcd", 0, 4, pm)[1] == Span(0, 3)
  {
    hide Matches, MatchesNode, Split, Longest, Lits, Dissected, NodeDissected;
    var text: Text := "abcd";
    LoopMatches(sets);
    Iteration(sets);
    MatchesNil(sets, []);
    MatchesOne(sets, Loop(BODY), text);
    assert text[0..4] == text && text[4..4] == [];
    assert Split(sets, Loop(BODY), Nil, text, 0, 4, 4) == 4 by { SplitAll(sets, Loop(BODY), Nil, text, 0, 4); }
    DissectedCons(sets, Loop(BODY), Nil, text, 0, 4, pm);
    DissectedNil(sets, text, 4, 4, NodeDissected(sets, Loop(BODY), text, 0, 4, pm));
    assert NodeDissected(sets, Loop(BODY), text, 0, 4, pm) == Dissected(sets, BODY, text, 0, 3, pm) by { LoopNode(sets, text, pm); }
    BodyDissected(sets, text, pm);
  }

  lemma SplitAll(sets: Sets, h: Node, t: Re, text: Text, a: nat, stop: nat)
    requires a <= stop <= |text| && MatchesNode(sets, h, text[a..stop]) && Matches(sets, t, text[stop..stop])
    ensures Split(sets, h, t, text, a, stop, stop) == stop
  {
  }

  lemma LoopNode(sets: Sets, text: Text, pm: seq<Span>)
    requires |text| == 4 && LastIteration(sets, BODY, text, 0, 0, 4) == (0, 3)
    ensures NodeDissected(sets, Loop(BODY), text, 0, 4, pm) == Dissected(sets, BODY, text, 0, 3, pm)
  {
    hide LastIteration, Dissected;
  }

  lemma BodyDissected(sets: Sets, text: Text, pm: seq<Span>)
    requires text == "abcd" && |pm| == 2
    ensures Dissected(sets, BODY, text, 0, 3, pm)[1] == Span(0, 3)
  {
    hide Matches, Split, Longest, Lits, Dissected, NodeDissected, MatchesNode;
    var choice, shut := BODY.tail.head, Cons(Shut(1), Nil);
    var w := text[0..3];
    assert w == "abc" && text[0..0] == [] && text[3..3] == [];
    Fits(sets);
    SplitOpen(sets, text);
    var pm1 := SetSo(pm, 1, 0);
    DissectedCons(sets, Open(1), BODY.tail, text, 0, 3, pm);
    assert NodeDissected(sets, Open(1), text, 0, 0, pm) == pm1 by { MarkNodes(sets, text, pm); }
    SplitAll(sets, choice, shut, text, 0, 3);
    DissectedCons(sets, choice, shut, text, 0, 3, pm1);
    NoGroup();
    UntouchedNode(sets, 1, choice, text, 0, 3, pm1);
    var pm2 := NodeDissected(sets, choice, text, 0, 3, pm1);
    SplitAll(sets, Shut(1), Nil, text, 3, 3);
    DissectedCons(sets, Shut(1), Nil, text, 3, 3, pm2);
    MarkNodes(sets, text, pm2);
    DissectedNil(sets, text, 3, 3, SetEo(pm2, 1, 3));
  }

  lemma NoGroup()
    ensures !OccursNode(1, BODY.tail.head)
  {
    assert !Occurs(1, Lits("ab")) && !Occurs(1, Lits("abc")) && !Occurs(1, Lits("cd")) by {
      LitsHaveNoGroup("ab");
      LitsHaveNoGroup("abc");
      LitsHaveNoGroup("cd");
    }
  }

  lemma {:induction false} LitsHaveNoGroup(s: Text)
    ensures !Occurs(1, Lits(s))
    decreases |s|
  {
    if s != [] { LitsHaveNoGroup(s[1..]); }
  }

  lemma MarkNodes(sets: Sets, text: Text, pm: seq<Span>)
    requires |text| == 4
    ensures NodeDissected(sets, Open(1), text, 0, 0, pm) == SetSo(pm, 1, 0)
    ensures NodeDissected(sets, Shut(1), text, 3, 3, pm) == SetEo(pm, 1, 3)
  {
  }

  /** What the parts of the body match of abc. */
  lemma Fits(sets: Sets)
    ensures MatchesNode(sets, Open(1), []) && MatchesNode(sets, Shut(1), [])
    ensures MatchesNode(sets, BODY.tail.head, "abc")
    ensures Matches(sets, Nil, []) && Matches(sets, Cons(Shut(1), Nil), [])
  {
    hide Matches, Lits;
    LitsMatch(sets, "abc", "abc");
    MatchesNil(sets, []);
    MatchesOne(sets, Shut(1), []);
  }

  lemma SplitOpen(sets: Sets, text: Text)
    requires text == "abcd"
    ensures Split(sets, Open(1), BODY.tail, text, 0, 3, 3) == 0
  {
    hide Matches, Lits, Split;
    BodyMatches(sets, text[0..3]);
    assert text[0..3] == "abc";
    SplitExists(sets, Open(1), BODY.tail, text, 0, 3);
    SplitHolds(sets, Open(1), BODY.tail, text, 0, 3, 3);
  }

  /** Whatever program and request: all of abcd is matched, but its group is said to have ended before the d. */
  lemma LastIterationFallsShort(g: Guts, t: Tree, before: seq<Span>, nmatch: nat, rc: Rc, after: seq<Span>)
    requires U.Reads(t, "(ab|abc|cd)+") && G.Program(g, false, t) && 0 < |g.strip| - 1 && 2 <= nmatch <= |before| && !g.nosub
    requires Outcome(g, TreeRe(false, t), "abcd", before, nmatch, PLAINLY, rc, after)
    ensures rc == OKAY && |after| >= 2 && after[0] == Span(0, 4) && after[1] == Span(0, 3)
  {
    hide U.Reads, TreeRe, OneGroup, Numbered, Outcome, Compiled;
    LoopReads();
    var no := ReadingIs(t, "(ab|abc|cd)+", LoopInner(), Plus, "");
    NumberIsOne(g, false, no, LoopInner(), Plus, "");
    LoopRe();
    LoopOutcome(g, "abcd", before, nmatch, rc, after);
  }

  lemma LoopOutcome(g: Guts, text: Text, before: seq<Span>, nmatch: nat, rc: Rc, after: seq<Span>)
    requires Compiled(g, LOOP) && g.nsub == 1 && text == "abcd" && 0 < |g.strip| - 1 && 2 <= nmatch <= |before| && !g.nosub
    requires Outcome(g, LOOP, text, before, nmatch, PLAINLY, rc, after)
    ensures rc == OKAY && |after| >= 2 && after[0] == Span(0, 4) && after[1] == Span(0, 3)
  {
    hide Compiled, Reported, Matches, Dissected;
    Whole(text, before);
    LoopMatches(g.sets);
    assert text[0..4] == text;
    assert MatchIn(g.sets, LOOP, text, 0, 4);
    AllReported(g, text, after[0]);
    LoopDissected(g.sets, NoSpans(2));
  }

  lemma AllReported(g: Guts, text: Text, s: Span)
    requires Compiled(g, LOOP) && text == "abcd" && 0 < |g.strip| - 1 && Reported(g, LOOP, text, 0, 4, s)
    ensures s == Span(0, 4)
  {
    hide Compiled, Matches, ColdAt;
    var c: nat, p: nat :| ReportedFrom(g, LOOP, text, 0, 4, s, c, p);
    LoopMatches(g.sets);
    assert text[0..2] == "ab" && text[0..4] == "abcd" && text[1..2] == "b" && text[2..2] == "";
    assert p <= 2;
    if c > 0 { S.ColdStarts(g, LOOP, text, 0, c, 0, 2); }
    assert s.so == 0;
  }

  // (x?(xy)?)(y?): a group need not be the longest it could be

  const XXY: Text := "x?(xy)?"
  const Y: Text := "y?"

  /** The reading of the first half; its group may have any number. */
  function FirstHalf(m: nat): Tree {
    Only(Then(Piece(Plain('x'), Opt), Then(Piece(Group(m, XY), Opt), Done)))
  }

  const XY: Tree := Only(Word("xy"))

  lemma XYReads()
    ensures U.Reads(XY, "xy") && AllPlain(XY)
  {
    hide Word;
    WordReads("xy", []);
    WordIsPlain("xy");
  }

  lemma HalvesRead()
    ensures U.Reads(FirstHalf(1), XXY) && U.WellFormed(Y)
  {
    hide SpellTree, TreeOk, Word, SpellBranch, BranchOk, Vanishes, PieceOk;
    var last := Then(Piece(Group(1, XY), Opt), Done);
    XYReads();
    D.GroupReads(XY, "xy", Opt);
    D.OneBranch(last);
    SecondPiece(SpellBranch(last));
    XFirst(SpellBranch(last) + []);
    D.JoinBranch(Piece(Plain('x'), Opt), last);
    D.OnePieceReads(Plain('y'), Opt);
    assert SpellAtom(Plain('y')) + SpellRep(Opt) == Y;
  }

  lemma SecondPiece(f: Text)
    requires f == D.GroupText("xy", Opt)
    ensures f == "(xy)?"
  {
    assert SpellRep(Opt) == "?";
  }

  lemma XFirst(f: Text)
    requires f == "(xy)?"
    ensures PieceOk(Piece(Plain('x'), Opt), f) && SpellPiece(Piece(Plain('x'), Opt)) == "x?"
  {
    assert SpellRep(Opt) == "?";
  }

  lemma HalfIs(x: Tree) returns (m: nat)
    requires U.Bare(x) == U.Bare(FirstHalf(1))
    ensures x == FirstHalf(m)
  {
    var b, c := x.branch, FirstHalf(1).branch;
    hide U.BareAtom;
    assert x.Only? && U.BareBranch(b) == U.BareBranch(c);
    assert b.Then? && b.piece.rep == Opt && U.BareAtom(b.piece.atom) == U.BareAtom(Plain('x'));
    assert U.BareBranch(b.rest) == U.BareBranch(c.rest);
    PlainIs(b.piece.atom);
    m := SecondIs(b.rest);
  }

  lemma PlainIs(a: Atom)
    requires U.BareAtom(a) == U.BareAtom(Plain('x'))
    ensures a == Plain('x')
  {
  }

  lemma SecondIs(b: Branch) returns (m: nat)
    requires U.BareBranch(b) == U.BareBranch(Then(Piece(Group(1, XY), Opt), Done))
    ensures b == Then(Piece(Group(m, XY), Opt), Done)
  {
    hide Word;
    XYReads();
    assert U.BareAtom(b.piece.atom) == Group(0, U.Bare(XY));
    SameIfPlain(b.piece.atom.inner, XY);
    m := b.piece.atom.no;
  }

  lemma HalfGroups(m: nat)
    ensures Groups(FirstHalf(m)) == 1
  {
    XYReads();
    SameIfPlain(XY, XY);
    hide Word, AllPlain;
    var b := FirstHalf(m).branch;
    assert Groups(FirstHalf(m)) == BranchGroups(b) == AtomGroups(b.piece.atom) + BranchGroups(b.rest);
    assert BranchGroups(b.rest) == AtomGroups(b.rest.piece.atom) + BranchGroups(Done);
  }

  lemma HalfRe(newline: bool, m: nat)
    ensures TreeRe(newline, FirstHalf(m)) ==
      Cons(Optional(Cons(Lit('x'), Nil)), Cons(Optional(P.Parens(m, Lits("xy"))), Nil))
  {
    hide Word, Lits, P.Parens, Optional;
    WordRe("xy", newline);
    var b := FirstHalf(m).branch;
    var x, y := Optional(Cons(Lit('x'), Nil)), Optional(P.Parens(m, Lits("xy")));
    assert PieceRe(newline, b.piece) == Cons(x, Nil);
    assert TreeRe(newline, XY) == Lits("xy");
    P.ParensAre(m, Lits("xy"));
    assert AtomRe(newline, Group(m, XY)) == P.Parens(m, Lits("xy"));
    assert PieceRe(newline, b.rest.piece) == Cons(y, Nil);
    assert BranchRe(newline, Done) == Nil;
    assert BranchRe(newline, b.rest) == Append(Cons(y, Nil), Nil) == Cons(y, Nil);
    assert BranchRe(newline, b) == Append(Cons(x, Nil), Cons(y, Nil));
    assert Append(Nil, Cons(y, Nil)) == Cons(y, Nil);
  }

  lemma HalfMatches(sets: Sets, m: nat, w: Text)
    ensures MatchesNode(sets, Optional(Cons(Lit('x'), Nil)), w) <==> w == [] || w == "x"
    ensures Matches(sets, Cons(Optional(P.Parens(m, Lits("xy"))), Nil), w) <==> w == [] || w == "xy"
  {
    hide Matches, Lits, P.Parens;
    OptionalMatches(sets, Cons(Lit('x'), Nil), w);
    MatchesOne(sets, Lit('x'), w);
    var y := P.Parens(m, Lits("xy"));
    MatchesOne(sets, Optional(y), w);
    OptionalMatches(sets, y, w);
    P.ParensMatch(sets, m, Lits("xy"), w);
    LitsMatch(sets, "xy", w);
  }

  /** Once x? has taken the x, nothing lets (xy)? get as far as it would have got without. */
  lemma CouldBeFarther(sets: Sets, m: nat, rest: Re)
    requires forall w :: Matches(sets, rest, w) <==> w == [] || w == "y"
    ensures !P.NoneFarther(sets, Cons(Optional(Cons(Lit('x'), Nil)), Cons(Optional(P.Parens(m, Lits("xy"))), Nil)), rest, "xy", 0, 2)
  {
    hide Matches, MatchesNode, Lits, P.Parens, Split, P.NodesEnd, P.NoneFarther, Optional;
    var text: Text := "xy";
    var h, t := Optional(Cons(Lit('x'), Nil)), Cons(Optional(P.Parens(m, Lits("xy"))), Nil);
    forall w
      ensures MatchesNode(sets, h, w) <==> w == [] || w == "x"
      ensures Matches(sets, t, w) <==> w == [] || w == "xy"
    {
      HalfMatches(sets, m, w);
    }
    assert text[0..1] == "x" && text[1..2] == "y" && text[0..2] == "xy" && text[1..1] == [] && text[2..2] == [];
    MatchesAppend(sets, t, rest, [], "y");
    assert [] + "y" == "y";
    SplitHolds(sets, h, Append(t, rest), text, 0, 2, 2);
    var r := Split(sets, h, Append(t, rest), text, 0, 2, 2);
    assert r == 1;
    P.NoneFartherCons(sets, h, t, rest, text, 0, 1, 2);
    P.NodesEndHolds(sets, t, rest, text, 1, 2);
    var e := P.NodesEnd(sets, t, rest, text, 1, 2);
    assert e == 1;
    assert P.CouldEnd(sets, t, rest, text, 0, 2, 2);
    assert P.CouldBy(sets, h, t, rest, text, 0, 0, 2, 2);
  }

  /** What is reported for a pattern that means the empty text begins where the search does. */
  lemma EmptyFromStart(g: Guts, re: Re, text: Text, start: nat, stop: nat, s: Span)
    requires 0 < |g.strip| - 1 && start <= stop <= |text| && Reported(g, re, text, start, stop, s) && Matches(g.sets, re, [])
    ensures s.so == start <= s.eo <= stop && forall k :: s.eo < k <= stop ==> !Matches(g.sets, re, text[start..k])
  {
    hide Matches, ColdAt;
    var c: nat, p: nat :| ReportedFrom(g, re, text, start, stop, s, c, p);
    assert text[start..start] == [];
  }

  lemma WholeReported(g: Guts, newline: bool, t: Tree, pattern: Text, before: seq<Span>, nmatch: nat, after: seq<Span>)
    requires L.Found(g, newline, t, pattern, "xy", before, nmatch, PLAINLY, after)
    requires U.Means(newline, pattern, []) && U.Means(newline, pattern, "xy")
    ensures nmatch <= |after| && after[0] == Span(0, 2)
  {
    hide U.Reads, U.Means, TreeRe, G.Program, Reported, Matches, Dissected, MatchIn, Bounds;
    var text: Text := "xy";
    Whole(text, before);
    G.ProgramMeans(g, newline, t, pattern, []);
    G.ProgramMeans(g, newline, t, pattern, text);
    EmptyFromStart(g, TreeRe(newline, t), text, 0, 2, after[0]);
    assert text[0..2] == text;
  }

  lemma HalvesMean(newline: bool, sets: Sets, x: Tree, rest: Re)
    requires U.Bare(x) == U.Bare(FirstHalf(1)) && P.StandsFor(sets, TreeRe(newline, x), newline, XXY) && P.StandsFor(sets, rest, newline, Y)
    ensures U.Means(newline, XXY, []) && U.Means(newline, XXY, "xy") && !U.Means(newline, Y, "xy")
    ensures !P.NoneFarther(sets, TreeRe(newline, x), rest, "xy", 0, 2)
  {
    hide U.Means, Matches, TreeRe, U.Bare, FirstHalf, P.NoneFarther, P.Parens, Lits, Optional, MatchesNode;
    var m := HalfIs(x);
    HalfRe(newline, m);
    var h, t := Optional(Cons(Lit('x'), Nil)), Cons(Optional(P.Parens(m, Lits("xy"))), Nil);
    HalfMatches(sets, m, []);
    HalfMatches(sets, m, "xy");
    MatchesCons(sets, h, t, [], []);
    MatchesCons(sets, h, t, [], "xy");
    assert [] + "xy" == "xy";
    forall w
      ensures Matches(sets, rest, w) <==> w == [] || w == "y"
    {
      W.ShortRepeats(newline, 'y', w);
    }
    CouldBeFarther(sets, m, rest);
  }

  /** Whatever program and request: of xy the first group gets the x alone, though all of xy would do for it as well. */
  lemma LongestSubexpressionFails(g: Guts, newline: bool, t: Tree, before: seq<Span>, nmatch: nat, after: seq<Span>)
    requires nmatch > 3 && L.Found(g, newline, t, "(x?(xy)?)(y?)", "xy", before, nmatch, PLAINLY, after)
    ensures nmatch <= |after| && after[0] == Span(0, 2) && after[1] == Span(0, 1)
    ensures L.CouldPart(newline, XXY, Y, "xy", after[0], 2)
  {
    hide U.Reads, L.Found, TreeRe, U.Bare, U.Means, U.WellFormed, P.NoneFarther, Groups, FirstHalf, L.BothText, L.CouldPart, P.StandsFor;
    var text: Text := "xy";
    HalvesRead();
    HalfGroups(1);
    WholeText();
    var x, rest := L.BothGroups(g, newline, t, FirstHalf(1), XXY, Y, text, before, nmatch, PLAINLY, after);
    HalvesMean(newline, g.sets, x, rest);
    XYMeant(newline);
    WholeReported(g, newline, t, "(x?(xy)?)(y?)", before, nmatch, after);
    var k :| k > after[1].eo && L.CouldPart(newline, XXY, Y, text, after[0], k);
    Parts(newline, after[1].eo, k);
  }

  lemma WholeText()
    ensures L.BothText(XXY, Y) == "(x?(xy)?)(y?)"
  {
    assert SpellRep(Once) == [];
  }

  lemma XYMeant(newline: bool)
    requires U.Means(newline, XXY, []) && U.Means(newline, XXY, "xy")
    ensures U.Means(newline, "(x?(xy)?)(y?)", []) && U.Means(newline, "(x?(xy)?)(y?)", "xy")
  {
    hide U.Means, U.Reads, L.BothText, FirstHalf;
    HalvesRead();
    WholeText();
    L.BothLaw(newline, XXY, Y, []);
    L.BothLaw(newline, XXY, Y, "xy");
    W.ShortRepeats(newline, 'y', []);
    var none: Text := [];
    var xy: Text := "xy";
    assert none[..0] == none && none[0..] == none && xy[..2] == xy && xy[2..] == none;
  }

  lemma Parts(newline: bool, e: int, k: int)
    requires !U.Means(newline, Y, "xy") && e < k
    requires L.CouldPart(newline, XXY, Y, "xy", Span(0, 2), e) && L.CouldPart(newline, XXY, Y, "xy", Span(0, 2), k)
    ensures e == 1 && k == 2
  {
    hide U.Means;
    var text: Text := "xy";
    assert text[0..2] == "xy";
  }
}
