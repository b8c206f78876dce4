/**
  Which stretch of the text each group of a pattern is reported to have, by what patterns mean.
 */
module GroupLaws {
  import opened Strip
  import opened Language
  import opened Pattern
  import opened Spelling
  import opened Grammar
  import opened Readings
  import opened Engine
  import opened Dissection
  import opened Execution
  import opened GroupSpans
  import N = GroupNumbers
  import G = Regex
  import U = Unambiguous

  /** A request to execute the program of a pattern, and what was found: the spans after. */
  ghost predicate Found(g: Guts, newline: bool, t: Tree, pattern: Text, text: Text,
                        before: seq<Span>, nmatch: nat, eflags: Eflags, after: seq<Span>) {
    && U.Reads(t, pattern) && G.Program(g, newline, t) && 0 < |g.strip| - 1 && !g.nosub
    && (eflags.startend ==> |before| > 0 && 0 <= before[0].so && before[0].eo <= |text|)
    && 0 < nmatch <= |before| && Outcome(g, TreeRe(newline, t), text, before, nmatch, eflags, OKAY, after)
  }

  /** The spans are those of the dissection of the whole match. */
  lemma FoundHas(g: Guts, newline: bool, t: Tree, pattern: Text, text: Text, before: seq<Span>, nmatch: nat, eflags: Eflags, after: seq<Span>)
    requires Found(g, newline, t, pattern, text, before, nmatch, eflags, after)
    ensures nmatch <= |after| && 0 <= after[0].so <= after[0].eo <= |text|
    ensures Numbered(newline, g.sets, t) && Ordered(t, 0) && g.nsub == Groups(t)
    ensures Matches(g.sets, TreeRe(newline, t), text[after[0].so..after[0].eo])
    ensures var spans := Dissected(g.sets, TreeRe(newline, t), text, after[0].so, after[0].eo, NoSpans(g.nsub + 1));
      forall i :: 1 <= i < nmatch && i <= g.nsub ==> after[i] == spans[i]
  {
    hide U.Reads, Compiled, Numbered, Ordered, Groups, TreeRe, Matches, Dissected, Reported, MatchIn;
    var (start, stop) := Bounds(text, before, eflags);
    ReportedMatches(g, TreeRe(newline, t), text, start, stop, after[0]);
  }

  lemma ReportedMatches(g: Guts, re: Re, text: Text, start: nat, stop: nat, s: Span)
    requires 0 < |g.strip| - 1 && start <= stop <= |text| && Reported(g, re, text, start, stop, s)
    ensures 0 <= s.so <= s.eo <= |text| && Matches(g.sets, re, text[s.so..s.eo])
  {
    hide Matches, ColdAt, FirstEnd, NoStart;
    var c: nat, p: nat :| ReportedFrom(g, re, text, start, stop, s, c, p);
  }

  /** A tree that differs from a reading of p in numbers only stands for p. */
  lemma TreeStandsFor(newline: bool, sets: Sets, inner: Tree, u: Tree, p: Text)
    requires U.Reads(u, p) && U.Bare(inner) == U.Bare(u) && Numbered(newline, sets, inner)
    ensures StandsFor(sets, TreeRe(newline, inner), newline, p)
  {
    hide U.Reads, U.Bare, U.Means, TreeMeans, TreeRe, Matches, Numbered;
    forall w
      ensures Matches(sets, TreeRe(newline, inner), w) <==> U.Means(newline, p, w)
    {
      TreeMatches(newline, sets, inner, w);
      U.BareMeans(newline, inner, w);
      U.BareMeans(newline, u, w);
      U.MeansByReading(newline, u, p, w);
    }
  }

  // (p), (p)?, (p)+ and (p)*

  lemma GroupIs(t: Tree, u: Tree, p: Text, r: Rep) returns (inner: Tree)
    requires U.Reads(u, p) && Short(r) && U.Reads(t, GroupText(p, r)) && Ordered(t, 0)
    ensures t == OnePiece(Group(1, inner), r) && U.Bare(inner) == U.Bare(u) && Ordered(inner, 1) && Groups(t) == 1 + Groups(inner)
  {
    hide U.Reads, Groups, Ordered, U.Bare;
    GroupReads(u, p, r);
    U.OneReading(false, t, OnePiece(Group(1, u), r), GroupText(p, r), []);
    inner := BareOne(t, u, r);
  }

  lemma BareOne(t: Tree, u: Tree, r: Rep) returns (inner: Tree)
    requires U.Bare(t) == U.Bare(OnePiece(Group(1, u), r)) && Ordered(t, 0)
    ensures t == OnePiece(Group(1, inner), r) && U.Bare(inner) == U.Bare(u) && Ordered(inner, 1) && Groups(t) == 1 + Groups(inner)
  {
    var b, c := t.branch, Then(Piece(Group(1, u), r), Done);
    assert U.BareBranch(b) == U.BareBranch(c) && t.Only?;
    assert U.BareAtom(b.piece.atom) == Group(0, U.Bare(u));
    assert b.rest == Done && BranchGroups(b.rest) == 0;
    inner := b.piece.atom.inner;
    assert OrderedBranch(b, 0) && OrderedAtom(b.piece.atom, 0);
    assert Groups(t) == BranchGroups(b) == AtomGroups(b.piece.atom) + BranchGroups(b.rest);
  }

  /** What is laid out for it. */
  lemma OnePieceRe(newline: bool, no: nat, inner: Tree, r: Rep)
    ensures TreeRe(newline, OnePiece(Group(no, inner), r)) == RepRe(Parens(no, TreeRe(newline, inner)), r)
  {
    var x := RepRe(Parens(no, TreeRe(newline, inner)), r);
    assert PieceRe(newline, Piece(Group(no, inner), r)) == x;
    assert BranchRe(newline, Done) == Nil;
    AppendNil(x);
  }

  lemma InnerNumbers(newline: bool, sets: Sets, inner: Tree, no: nat, r: Rep)
    requires Ordered(inner, no) && Numbered(newline, sets, OnePiece(Group(no, inner), r))
    ensures Numbered(newline, sets, inner) && !Occurs(no, TreeRe(newline, inner))
  {
    hide TreeRe, Occurs, Ordered;
    N.TreeNumbers(newline, no, inner, no);
    assert NumberedBranch(newline, sets, OnePiece(Group(no, inner), r).branch);
    assert NumberedAtom(newline, sets, Group(no, inner));
  }

  /**
    A group that is all of a pattern, by how it is repeated: (p) has the whole match, (p)? just when p means
    the whole match, (p)+ and (p)* the last iteration, unless there is none.
   */
  lemma RepeatedGroup(g: Guts, newline: bool, t: Tree, p: Text, r: Rep, text: Text, before: seq<Span>, nmatch: nat, eflags: Eflags, after: seq<Span>)
    requires U.WellFormed(p) && Short(r) && nmatch > 1
    requires Found(g, newline, t, GroupText(p, r), text, before, nmatch, eflags, after)
    ensures |after| > 1 && 0 <= after[0].so <= after[0].eo <= |text|
    ensures RepeatedSpan(newline, p, r, text, after[0], after[1])
  {
    hide U.Reads, Found, Numbered, Ordered, Groups, TreeRe, Matches, Dissected, RepeatedSpan, U.Bare, U.Means;
    FoundHas(g, newline, t, GroupText(p, r), text, before, nmatch, eflags, after);
    FoundReads(g, newline, t, GroupText(p, r), text, before, nmatch, eflags, after);
    var u :| U.Reads(u, p);
    var inner := GroupIs(t, u, p, r);
    OnePieceRe(newline, 1, inner, r);
    InnerNumbers(newline, g.sets, inner, 1, r);
    TreeStandsFor(newline, g.sets, inner, u, p);
    RepTakes(g.sets, TreeRe(newline, inner), newline, p, r, text, after[0].so, after[0].eo, NoSpans(g.nsub + 1));
  }

  lemma FoundReads(g: Guts, newline: bool, t: Tree, pattern: Text, text: Text, before: seq<Span>, nmatch: nat, eflags: Eflags, after: seq<Span>)
    requires Found(g, newline, t, pattern, text, before, nmatch, eflags, after)
    ensures U.Reads(t, pattern)
  {
    hide U.Reads, G.Program, Outcome, TreeRe;
  }

  const UNSET := Span(-1, -1)

  ghost predicate RepeatedSpan(newline: bool, p: Text, r: Rep, text: Text, whole: Span, s: Span)
    requires 0 <= whole.so <= whole.eo <= |text| && Short(r)
  {
    var (a, b) := (whole.so, whole.eo);
    match r
    case Once => s == whole && U.Means(newline, p, text[a..b])
    case Opt => s == if U.Means(newline, p, text[a..b]) then whole else UNSET
    case Plus => LastTaken(newline, p, text, a, b, s)
    case Star => if a < b || U.Means(newline, p, []) then LastTaken(newline, p, text, a, b, s) else s == UNSET
  }

  lemma RepTakes(sets: Sets, x: Re, newline: bool, p: Text, r: Rep, text: Text, a: nat, b: nat, pm: seq<Span>)
    requires StandsFor(sets, x, newline, p) && Short(r) && !Occurs(1, x)
    requires a <= b <= |text| && |pm| > 1 && pm[1] == UNSET && Matches(sets, RepRe(Parens(1, x), r), text[a..b])
    ensures RepeatedSpan(newline, p, r, text, Span(a, b), Dissected(sets, RepRe(Parens(1, x), r), text, a, b, pm)[1])
  {
    hide Matches, U.Means, Dissected, Occurs, LastTaken, Parens;
    var y := Parens(1, x);
    var w := text[a..b];
    ParensStand(sets, 1, x, newline, p);
    match r
    case Once => GroupAlone(sets, 1, x, text, a, b, pm);
    case Opt =>
      MatchesOne(sets, Optional(y), w);
      ChoiceTakes(sets, y, Nil, text, a, b, pm);
      if U.Means(newline, p, w) {
        GroupAlone(sets, 1, x, text, a, b, pm);
      } else {
        DissectedNil(sets, text, a, b, pm);
      }
    case Plus =>
      MatchesOne(sets, Loop(y), w);
      LoopTakes(sets, 1, x, newline, p, text, a, b, pm);
    case Star =>
      MatchesOne(sets, Maybe(Cons(Loop(y), Nil)), w);
      StarTakes(sets, 1, x, newline, p, text, a, b, pm);
  }

  // (p)|(q) and (p)(q)

  lemma {:induction false} SameGroups(t: Tree, u: Tree)
    requires U.Bare(t) == U.Bare(u)
    ensures Groups(t) == Groups(u)
    decreases t, 0
  {
    hide BranchGroups, U.BareBranch;
    SameBranchGroups(t.branch, u.branch);
    if t.Or? { SameGroups(t.more, u.more); }
  }

  lemma {:induction false} SameBranchGroups(b: Branch, c: Branch)
    requires U.BareBranch(b) == U.BareBranch(c)
    ensures BranchGroups(b) == BranchGroups(c)
    decreases b, 0
  {
    hide Groups, U.Bare;
    if b.Then? {
      SameBranchGroups(b.rest, c.rest);
      SameAtomGroups(b.piece.atom, c.piece.atom);
    }
  }

  lemma {:induction false} SameAtomGroups(a: Atom, b: Atom)
    requires U.BareAtom(a) == U.BareAtom(b)
    ensures AtomGroups(a) == AtomGroups(b)
    decreases a, 0
  {
    hide Groups, U.Bare;
    if a.Group? { SameGroups(a.inner, b.inner); }
  }

  function EitherText(p: Text, q: Text): Text {
    GroupText(p, Once) + ['|'] + GroupText(q, Once)
  }

  function BothText(p: Text, q: Text): Text {
    GroupText(p, Once) + GroupText(q, Once)
  }

  function EitherTree(m: nat, x: Tree, n: nat, y: Tree): Tree {
    Or(OnePiece(Group(m, x), Once).branch, OnePiece(Group(n, y), Once))
  }

  function BothTree(m: nat, x: Tree, n: nat, y: Tree): Tree {
    Only(Then(Piece(Group(m, x), Once), Then(Piece(Group(n, y), Once), Done)))
  }

  lemma EitherReads(u: Tree, v: Tree, p: Text, q: Text)
    requires U.Reads(u, p) && U.Reads(v, q)
    ensures U.Reads(EitherTree(1, u, 1, v), EitherText(p, q))
  {
    hide U.Reads;
    GroupReads(u, p, Once);
    GroupReads(v, q, Once);
    AltReads(OnePiece(Group(1, u), Once), OnePiece(Group(1, v), Once), GroupText(p, Once), GroupText(q, Once));
  }

  lemma BothReads(u: Tree, v: Tree, p: Text, q: Text)
    requires U.Reads(u, p) && U.Reads(v, q)
    ensures U.Reads(BothTree(1, u, 1, v), BothText(p, q))
  {
    hide TreeOk, SpellTree, GroupText;
    var last := Then(Piece(Group(1, v), Once), Done);
    GroupReads(v, q, Once);
    assert SpellTree(Only(last)) == SpellBranch(last) == GroupText(q, Once) && BranchOk(last, []) && !Vanishes(last) by { OneBranch(last); }
    var f := SpellBranch(last) + [];
    assert f == SpellBranch(last);
    assert f[0] == '(' by { GroupFirst(q); }
    ReadingFollows(u, p, [')'] + f);
    GroupThenOk(u, p, f);
    JoinBranch(Piece(Group(1, u), Once), last);
  }

  lemma GroupFirst(q: Text)
    ensures GroupText(q, Once) != [] && GroupText(q, Once)[0] == '('
  {
  }

  lemma GroupThenOk(u: Tree, p: Text, f: Text)
    requires U.Reads(u, p) && TreeOk(u, [')'] + f) && f != [] && f[0] == '('
    ensures PieceOk(Piece(Group(1, u), Once), f) && SpellPiece(Piece(Group(1, u), Once)) == GroupText(p, Once)
  {
    hide TreeOk, SpellTree;
    assert SpellRep(Once) == [] && SpellRep(Once) + f == f;
    assert SpellAtom(Group(1, u)) == ['('] + p + [')'];
  }

  /** The number of the second group. */
  function Second(u: Tree): nat {
    Groups(u) + 2
  }

  lemma EitherIs(t: Tree, u: Tree, v: Tree, p: Text, q: Text) returns (x: Tree, y: Tree)
    requires U.Reads(u, p) && U.Reads(v, q) && U.Reads(t, EitherText(p, q)) && Ordered(t, 0)
    ensures t == EitherTree(1, x, Second(u), y) && U.Bare(x) == U.Bare(u) && U.Bare(y) == U.Bare(v)
    ensures Ordered(x, 1) && Ordered(y, Second(u)) && Groups(t) == Second(u) + Groups(y) && Groups(x) == Groups(u)
  {
    hide U.Reads, EitherText;
    EitherReads(u, v, p, q);
    U.OneReading(false, t, EitherTree(1, u, 1, v), EitherText(p, q), []);
    x, y := BareEither(t, u, v);
  }

  lemma BareEither(t: Tree, u: Tree, v: Tree) returns (x: Tree, y: Tree)
    requires U.Bare(t) == U.Bare(EitherTree(1, u, 1, v)) && Ordered(t, 0)
    ensures t == EitherTree(1, x, Second(u), y) && U.Bare(x) == U.Bare(u) && U.Bare(y) == U.Bare(v)
    ensures Ordered(x, 1) && Ordered(y, Second(u)) && Groups(t) == Second(u) + Groups(y) && Groups(x) == Groups(u)
  {
    hide U.BareAtom, U.Bare, OnePiece, SpellTree;
    BareEitherParts(t, u, v);
    var b, c := t.branch, t.more.branch;
    x := BareGroup(b, u, 0);
    SameGroups(x, u);
    y := BareGroup(c, v, BranchGroups(b));
    EitherOnes(x, y, Second(u), t);
  }

  lemma EitherOnes(x: Tree, y: Tree, n: nat, t: Tree)
    requires t.Or? && t.more.Only? && t.branch == OnePiece(Group(1, x), Once).branch && t.more.branch == OnePiece(Group(n, y), Once).branch
    ensures t == EitherTree(1, x, n, y)
  {
  }

  lemma BareEitherParts(t: Tree, u: Tree, v: Tree)
    requires U.Bare(t) == U.Bare(EitherTree(1, u, 1, v)) && Ordered(t, 0)
    ensures t.Or? && t.more.Only?
    ensures U.BareBranch(t.branch) == U.BareBranch(OnePiece(Group(1, u), Once).branch) && OrderedBranch(t.branch, 0)
    ensures U.BareBranch(t.more.branch) == U.BareBranch(OnePiece(Group(1, v), Once).branch) && OrderedBranch(t.more.branch, BranchGroups(t.branch))
    ensures Groups(t) == BranchGroups(t.branch) + BranchGroups(t.more.branch)
  {
    hide U.BareBranch, BranchGroups, OrderedBranch;
    assert U.Bare(t) == Or(U.BareBranch(OnePiece(Group(1, u), Once).branch), U.Bare(OnePiece(Group(1, v), Once)));
  }

  lemma BareGroup(b: Branch, u: Tree, n: nat) returns (x: Tree)
    requires U.BareBranch(b) == U.BareBranch(OnePiece(Group(1, u), Once).branch) && OrderedBranch(b, n)
    ensures b == OnePiece(Group(n + 1, x), Once).branch && U.Bare(x) == U.Bare(u) && Ordered(x, n + 1)
    ensures BranchGroups(b) == 1 + Groups(x)
  {
    hide U.Bare, Groups, Ordered;
    assert U.BareAtom(b.piece.atom) == Group(0, U.Bare(u));
    assert b.rest == Done && BranchGroups(b.rest) == 0;
    x := b.piece.atom.inner;
    assert OrderedAtom(b.piece.atom, n);
  }

  lemma BothIs(t: Tree, u: Tree, v: Tree, p: Text, q: Text) returns (x: Tree, y: Tree)
    requires U.Reads(u, p) && U.Reads(v, q) && U.Reads(t, BothText(p, q)) && Ordered(t, 0)
    ensures t == BothTree(1, x, Second(u), y) && U.Bare(x) == U.Bare(u) && U.Bare(y) == U.Bare(v)
    ensures Ordered(x, 1) && Ordered(y, Second(u)) && Groups(t) == Second(u) + Groups(y) && Groups(x) == Groups(u)
  {
    hide U.Reads, BothText;
    BothReads(u, v, p, q);
    U.OneReading(false, t, BothTree(1, u, 1, v), BothText(p, q), []);
    x, y := BareBoth(t, u, v);
  }

  lemma BareBoth(t: Tree, u: Tree, v: Tree) returns (x: Tree, y: Tree)
    requires U.Bare(t) == U.Bare(BothTree(1, u, 1, v)) && Ordered(t, 0)
    ensures t == BothTree(1, x, Second(u), y) && U.Bare(x) == U.Bare(u) && U.Bare(y) == U.Bare(v)
    ensures Ordered(x, 1) && Ordered(y, Second(u)) && Groups(t) == Second(u) + Groups(y) && Groups(x) == Groups(u)
  {
    BareBothParts(t, u, v);
    hide U.BareAtom, U.Bare, U.BareBranch, Groups, Ordered, OrderedBranch, OrderedAtom, BranchGroups, AtomGroups, BothTree;
    var b := t.branch;
    x := InnerOf(b.piece.atom, u, 0);
    SameGroups(x, u);
    y := BareGroup(b.rest, v, AtomGroups(b.piece.atom));
    BothOnes(x, y, Second(u), t);
  }

  lemma BothOnes(x: Tree, y: Tree, n: nat, t: Tree)
    requires t.Only? && t.branch.Then? && t.branch.piece == Piece(Group(1, x), Once) && t.branch.rest == OnePiece(Group(n, y), Once).branch
    ensures t == BothTree(1, x, n, y)
  {
  }

  lemma InnerOf(a: Atom, u: Tree, n: nat) returns (x: Tree)
    requires U.BareAtom(a) == U.BareAtom(Group(1, u)) && OrderedAtom(a, n)
    ensures a == Group(n + 1, x) && U.Bare(x) == U.Bare(u) && Ordered(x, n + 1) && AtomGroups(a) == 1 + Groups(x)
  {
    hide U.Bare, Groups, Ordered;
    x := a.inner;
  }

  lemma BareBothParts(t: Tree, u: Tree, v: Tree)
    requires U.Bare(t) == U.Bare(BothTree(1, u, 1, v)) && Ordered(t, 0)
    ensures t.Only? && t.branch.Then? && t.branch.piece.rep == Once
    ensures U.BareAtom(t.branch.piece.atom) == U.BareAtom(Group(1, u)) && OrderedAtom(t.branch.piece.atom, 0)
    ensures U.BareBranch(t.branch.rest) == U.BareBranch(OnePiece(Group(1, v), Once).branch)
    ensures OrderedBranch(t.branch.rest, AtomGroups(t.branch.piece.atom))
    ensures Groups(t) == AtomGroups(t.branch.piece.atom) + BranchGroups(t.branch.rest)
  {
    hide U.BareAtom, AtomGroups, OrderedAtom;
    assert U.BareBranch(t.branch) == U.BareBranch(BothTree(1, u, 1, v).branch);
    assert Groups(t) == BranchGroups(t.branch);
    assert OrderedBranch(t.branch, 0);
  }

  lemma EitherRe(newline: bool, x: Tree, n: nat, y: Tree)
    ensures TreeRe(newline, EitherTree(1, x, n, y)) ==
      Cons(Choice(Parens(1, TreeRe(newline, x)), Last(Parens(n, TreeRe(newline, y)))), Nil)
  {
    hide Parens, BranchRe;
    OnePieceRe(newline, 1, x, Once);
    OnePieceRe(newline, n, y, Once);
    assert BranchRe(newline, OnePiece(Group(1, x), Once).branch) == Parens(1, TreeRe(newline, x));
    assert TreeAlts(newline, OnePiece(Group(n, y), Once)) == Last(Parens(n, TreeRe(newline, y)));
  }

  lemma BothRe(newline: bool, x: Tree, n: nat, y: Tree)
    ensures TreeRe(newline, BothTree(1, x, n, y)) == Append(Parens(1, TreeRe(newline, x)), Parens(n, TreeRe(newline, y)))
  {
    hide Parens;
    OnePieceRe(newline, n, y, Once);
    var b := BothTree(1, x, n, y).branch;
    assert BranchRe(newline, b.rest) == Parens(n, TreeRe(newline, y));
    assert PieceRe(newline, b.piece) == Parens(1, TreeRe(newline, x)) by { ParensAre(1, TreeRe(newline, x)); }
  }

  lemma AreApart(newline: bool, x: Tree, n: nat, y: Tree)
    requires Ordered(x, 1) && Ordered(y, n) && n == Groups(x) + 2
    ensures Apart(TreeRe(newline, x), n, TreeRe(newline, y))
  {
    hide TreeRe, Occurs, Ordered, Groups;
    N.TreeNumbers(newline, 1, x, 1);
    N.TreeNumbers(newline, n, x, 1);
    N.TreeNumbers(newline, 1, y, n);
    N.TreeNumbers(newline, n, y, n);
  }

  lemma NumberedParts(newline: bool, sets: Sets, t: Tree, x: Tree, n: nat, y: Tree)
    requires (t == EitherTree(1, x, n, y) || t == BothTree(1, x, n, y)) && Numbered(newline, sets, t)
    ensures Numbered(newline, sets, x) && Numbered(newline, sets, y)
  {
    if t == EitherTree(1, x, n, y) {
      assert NumberedBranch(newline, sets, OnePiece(Group(1, x), Once).branch);
      assert Numbered(newline, sets, OnePiece(Group(n, y), Once));
      assert NumberedBranch(newline, sets, OnePiece(Group(n, y), Once).branch);
      assert NumberedAtom(newline, sets, Group(1, x)) && NumberedAtom(newline, sets, Group(n, y));
    } else {
      var b := BothTree(1, x, n, y).branch;
      assert NumberedBranch(newline, sets, b) && NumberedBranch(newline, sets, b.rest);
      assert NumberedAtom(newline, sets, Group(1, x)) && NumberedAtom(newline, sets, Group(n, y));
    }
  }

  /** Of (p)|(q), the first group has the whole match just when p means it, and otherwise the second has. */
  lemma EitherGroup(g: Guts, newline: bool, t: Tree, u: Tree, p: Text, q: Text, text: Text,
                    before: seq<Span>, nmatch: nat, eflags: Eflags, after: seq<Span>)
    requires U.Reads(u, p) && U.WellFormed(q) && nmatch > Second(u)
    requires Found(g, newline, t, EitherText(p, q), text, before, nmatch, eflags, after)
    ensures nmatch <= |after| && 0 <= after[0].so <= after[0].eo <= |text|
    ensures var w := text[after[0].so..after[0].eo];
      if U.Means(newline, p, w) then after[1] == after[0] && after[Second(u)] == UNSET
      else U.Means(newline, q, w) && after[Second(u)] == after[0] && after[1] == UNSET
  {
    hide U.Reads, Found, Numbered, Ordered, Groups, TreeRe, Matches, Dissected, U.Bare, U.Means, EitherText, EitherTree, Parens, Apart;
    FoundHas(g, newline, t, EitherText(p, q), text, before, nmatch, eflags, after);
    FoundReads(g, newline, t, EitherText(p, q), text, before, nmatch, eflags, after);
    var v :| U.Reads(v, q);
    var x, y := EitherIs(t, u, v, p, q);
    var n := Second(u);
    NumberedParts(newline, g.sets, t, x, n, y);
    EitherRe(newline, x, n, y);
    AreApart(newline, x, n, y);
    TreeStandsFor(newline, g.sets, x, u, p);
    TreeStandsFor(newline, g.sets, y, v, q);
    EitherTakes(g.sets, TreeRe(newline, x), n, TreeRe(newline, y), text, after[0].so, after[0].eo, NoSpans(g.nsub + 1));
  }

  lemma RestStands(sets: Sets, n: nat, y: Re, newline: bool, q: Text)
    requires StandsFor(sets, y, newline, q)
    ensures StandsFor(sets, Cons(Shut(1), Parens(n, y)), newline, q)
  {
    hide Matches, U.Means, Parens;
    forall w
      ensures Matches(sets, Cons(Shut(1), Parens(n, y)), w) <==> U.Means(newline, q, w)
    {
      ShutMatches(sets, Parens(n, y), w);
      ParensMatch(sets, n, y, w);
    }
  }

  /** What (p)(q) means. */
  lemma BothLaw(newline: bool, p: Text, q: Text, w: Text)
    requires U.WellFormed(p) && U.WellFormed(q)
    ensures U.Means(newline, BothText(p, q), w) <==>
      exists i :: 0 <= i <= |w| && U.Means(newline, p, w[..i]) && U.Means(newline, q, w[i..])
  {
    hide U.Means, U.Reads, TreeMeans, BothText;
    var u, v :| U.Reads(u, p) && U.Reads(v, q);
    BothReads(u, v, p, q);
    U.MeansByReading(newline, BothTree(1, u, 1, v), BothText(p, q), w);
    forall x
      ensures U.Means(newline, p, x) <==> TreeMeans(newline, u, x)
      ensures U.Means(newline, q, x) <==> TreeMeans(newline, v, x)
    {
      U.MeansByReading(newline, u, p, x);
      U.MeansByReading(newline, v, q, x);
    }
    BothMean(newline, u, v, w);
  }

  lemma BothMean(newline: bool, u: Tree, v: Tree, w: Text)
    ensures TreeMeans(newline, BothTree(1, u, 1, v), w) <==>
      exists i :: 0 <= i <= |w| && TreeMeans(newline, u, w[..i]) && TreeMeans(newline, v, w[i..])
  {
    hide PieceMeans, TreeMeans, AtomMeans;
    var b := BothTree(1, u, 1, v).branch;
    forall x
      ensures PieceMeans(newline, b.piece, x) <==> TreeMeans(newline, u, x)
      ensures BranchMeans(newline, b.rest, x) <==> TreeMeans(newline, v, x)
    {
      OnceMeans(newline, Group(1, u), x);
      OnceMeans(newline, Group(1, v), x);
      OnePieceMeans(newline, Group(1, v), Once, x);
      GroupMeans(newline, u, x);
      GroupMeans(newline, v, x);
      OnlyMeans(newline, b.rest, x);
    }
    OnlyMeans(newline, b, w);
  }

  lemma GroupMeans(newline: bool, t: Tree, w: Text)
    ensures AtomMeans(newline, Group(1, t), w) <==> TreeMeans(newline, t, w)
  {
    hide TreeMeans;
  }

  lemma OnlyMeans(newline: bool, b: Branch, w: Text)
    ensures TreeMeans(newline, Only(b), w) <==> BranchMeans(newline, b, w)
  {
    hide BranchMeans;
  }

  /** The first group of (p)(q) could end at k as well. */
  ghost predicate CouldPart(newline: bool, p: Text, q: Text, text: Text, whole: Span, k: int)
    requires 0 <= whole.so <= whole.eo <= |text|
  {
    whole.so <= k <= whole.eo && U.Means(newline, p, text[whole.so..k]) && U.Means(newline, q, text[k..whole.eo])
  }

  /**
    Of (p)(q), the groups part the match in two stretches that p and q mean.  The first is the longest it could
    be just when, going through the nodes of p, a shorter stretch for one would nowhere let the others get farther.
   */
  lemma BothGroups(g: Guts, newline: bool, t: Tree, u: Tree, p: Text, q: Text, text: Text,
                   before: seq<Span>, nmatch: nat, eflags: Eflags, after: seq<Span>)
    returns (x: Tree, rest: Re)
    requires U.Reads(u, p) && U.WellFormed(q) && nmatch > Second(u)
    requires Found(g, newline, t, BothText(p, q), text, before, nmatch, eflags, after)
    ensures nmatch <= |after| && 0 <= after[0].so <= after[0].eo <= |text|
    ensures after[1].so == after[0].so && after[Second(u)] == Span(after[1].eo, after[0].eo)
    ensures CouldPart(newline, p, q, text, after[0], after[1].eo)
    ensures U.Bare(x) == U.Bare(u) && StandsFor(g.sets, TreeRe(newline, x), newline, p) && StandsFor(g.sets, rest, newline, q)
    ensures (forall k :: k > after[1].eo ==> !CouldPart(newline, p, q, text, after[0], k)) <==>
      NoneFarther(g.sets, TreeRe(newline, x), rest, text, after[0].so, after[0].eo)
  {
    hide U.Reads, Found, Numbered, Ordered, Groups, TreeRe, Matches, Dissected, U.Bare, U.Means, BothText, BothTree, Parens, Apart, NoneFarther;
    FoundHas(g, newline, t, BothText(p, q), text, before, nmatch, eflags, after);
    FoundReads(g, newline, t, BothText(p, q), text, before, nmatch, eflags, after);
    var v :| U.Reads(v, q);
    var y;
    x, y := BothIs(t, u, v, p, q);
    var n := Second(u);
    NumberedParts(newline, g.sets, t, x, n, y);
    BothRe(newline, x, n, y);
    AreApart(newline, x, n, y);
    TreeStandsFor(newline, g.sets, x, u, p);
    TreeStandsFor(newline, g.sets, y, v, q);
    rest := Cons(Shut(1), Parens(n, TreeRe(newline, y)));
    RestStands(g.sets, n, TreeRe(newline, y), newline, q);
    var a, b := after[0].so, after[0].eo;
    var k := BothTake(g.sets, TreeRe(newline, x), n, TreeRe(newline, y), text, a, b, NoSpans(g.nsub + 1));
    forall j
      ensures CouldEnd(g.sets, TreeRe(newline, x), TreeRe(newline, y), text, a, j, b) <==> CouldPart(newline, p, q, text, after[0], j)
    {
    }
  }

  /** Branches apart by bars, or one piece repeated with *, + or ?: laid out as one node. */
  predicate OneNode(u: Tree) {
    u.Or? || (u.branch.Then? && u.branch.rest == Done && (u.branch.piece.rep == Star || u.branch.piece.rep == Plus || u.branch.piece.rep == Opt))
  }

  lemma OneNodeToo(x: Tree, u: Tree)
    requires U.Bare(x) == U.Bare(u) && OneNode(u)
    ensures OneNode(x)
  {
    hide U.BareAtom;
    assert x.Or? <==> u.Or?;
    if u.Only? {
      assert U.BareBranch(x.branch) == U.BareBranch(u.branch);
      assert U.BareBranch(x.branch.rest) == U.BareBranch(u.branch.rest) == Done;
    }
  }

  lemma OneNodeRe(newline: bool, x: Tree) returns (h: Node)
    requires OneNode(x)
    ensures TreeRe(newline, x) == Cons(h, Nil)
  {
    hide AtomRe, TreeAlts, Optional;
    if x.Only? {
      var p := x.branch.piece;
      assert BranchRe(newline, Done) == Nil;
      AppendNil(PieceRe(newline, p));
      assert BranchRe(newline, x.branch) == PieceRe(newline, p);
      h := PieceRe(newline, p).head;
    } else {
      h := TreeRe(newline, x).head;
    }
  }

  /** Then the first group is always the longest it could be. */
  lemma LongestFirst(g: Guts, newline: bool, t: Tree, u: Tree, p: Text, q: Text, text: Text,
                     before: seq<Span>, nmatch: nat, eflags: Eflags, after: seq<Span>)
    requires U.Reads(u, p) && OneNode(u) && U.WellFormed(q) && nmatch > Second(u)
    requires Found(g, newline, t, BothText(p, q), text, before, nmatch, eflags, after)
    ensures nmatch <= |after| && 0 <= after[0].so <= after[0].eo <= |text|
    ensures CouldPart(newline, p, q, text, after[0], after[1].eo)
    ensures forall k :: k > after[1].eo ==> !CouldPart(newline, p, q, text, after[0], k)
  {
    hide U.Reads, Found, TreeRe, U.Bare, U.Means, BothText, NoneFarther, OneNode, Groups, CouldPart;
    var x, rest := BothGroups(g, newline, t, u, p, q, text, before, nmatch, eflags, after);
    OneNodeToo(x, u);
    var h := OneNodeRe(newline, x);
    OneNodeFarthest(g.sets, h, rest, text, after[0].so, after[0].eo);
  }
}
