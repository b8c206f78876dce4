/**
  What patterns mean, by their texts: ranges and their complements, dots, characters, repetition, groups and bars.
 */
module PatternLaws {
  import opened Strip
  import opened Pattern
  import opened Spelling
  import opened Grammar
  import opened Readings
  import U = Unambiguous
  import R = Repetition
  import B = Brackets
  import C = Regcomp

  // Bracket expressions

  /** A range may be written with these as its ends, and nothing else between the brackets. */
  predicate RangeEnds(a: Ch, b: Ch) {
    a <= b && a != ']' && a != '-' && a != '^' && b != ']'
  }

  /** [a-b] and [^a-b] */
  function RangeText(invert: bool, a: Ch, b: Ch): Text {
    (if invert then ['[', '^'] else ['[']) + [a, '-', b, ']']
  }

  function RangeList(invert: bool, a: Ch, b: Ch): Brack {
    Brack(invert, [], [Range(a, b)], false)
  }

  lemma RangeSpelled(invert: bool, a: Ch, b: Ch)
    requires RangeEnds(a, b)
    ensures SpellAtom(Bracket(RangeList(invert, a, b), 0)) == RangeText(invert, a, b) && BrackOk(RangeList(invert, a, b), [])
  {
    hide BrackOk, SpellBrack;
    RangeTerms(a, b);
    RangeOk(invert, a, b);
    assert SpellBrack(RangeList(invert, a, b)) == (if invert then ['^'] else []) + [a, '-', b, ']'] by { RangeBrack(invert, a, b); }
  }

  lemma RangeTerms(a: Ch, b: Ch)
    ensures SpellTerms([Range(a, b)]) == [a, '-', b]
  {
    var ts := [Range(a, b)];
    assert ts[..0] == [] && SpellTerms([]) == [];
    assert SpellTerms(ts) == [] + [a, '-', b] == [a, '-', b];
  }

  lemma RangeBrack(invert: bool, a: Ch, b: Ch)
    ensures SpellBrack(RangeList(invert, a, b)) == (if invert then ['^'] else []) + [a, '-', b, ']']
  {
    hide SpellTerms;
    RangeTerms(a, b);
  }

  lemma RangeOk(invert: bool, a: Ch, b: Ch)
    requires RangeEnds(a, b)
    ensures BrackOk(RangeList(invert, a, b), [])
  {
    hide SpellTerms, TermsOk;
    RangeTerms(a, b);
    var ts, end := [Range(a, b)], SpellEnd(false) + [];
    assert TermsOk(ts, end) by { RangeTermOk(a, b, end); }
    assert SpellTerms(ts) + end == [a, '-', b] + end;
  }

  lemma RangeTermOk(a: Ch, b: Ch, end: Text)
    requires RangeEnds(a, b) && end == [']']
    ensures TermsOk([Range(a, b)], end)
  {
    var ts := [Range(a, b)];
    assert ts[..0] == [];
    assert TermsOk([], SpellTerm(ts[0]) + end);
    assert TermOk(ts[0], end);
  }

  lemma RangeListed(invert: bool, a: Ch, b: Ch, c: Ch)
    ensures c in Listed(RangeList(invert, a, b)) <==> a <= c <= b
  {
    var ts := [Range(a, b)];
    assert ts[..0] == [] && TermsSet([]) == {};
    assert TermsSet(ts) == {} + TermSet(ts[0]);
    assert InCode(c);
  }

  /** A range stands for the characters from its first to its last, its complement for all others but perhaps a newline. */
  lemma RangeLaw(newline: bool, a: Ch, b: Ch, w: Text)
    requires RangeEnds(a, b)
    ensures U.Means(newline, RangeText(false, a, b), w) <==> |w| == 1 && a <= w[0] <= b
    ensures U.Means(newline, RangeText(true, a, b), w) <==> |w| == 1 && !(a <= w[0] <= b) && !(newline && w[0] == '\n')
  {
    hide U.Means, Listed, RangeText, BrackOk, SpellAtom, RangeList;
    forall invert: bool
      ensures U.Means(newline, RangeText(invert, a, b), w) <==> AtomMeans(newline, Bracket(RangeList(invert, a, b), 0), w)
    {
      RangeSpelled(invert, a, b);
      OnceLaw(newline, Bracket(RangeList(invert, a, b), 0), w);
    }
    if |w| == 1 {
      RangeListed(false, a, b, w[0]);
      RangeListed(true, a, b, w[0]);
    }
    Inverted(a, b);
  }

  lemma Inverted(a: Ch, b: Ch)
    ensures RangeList(true, a, b).invert && !RangeList(false, a, b).invert
  {
  }

  /** An atom alone. */
  lemma OnceLaw(newline: bool, a: Atom, w: Text)
    requires AtomOk(a, [])
    ensures U.Means(newline, SpellAtom(a), w) <==> AtomMeans(newline, a, w)
  {
    hide AtomOk, SpellAtom, AtomMeans, PieceMeans, U.Means;
    assert SpellRep(Once) == [] && RepOk(Once, []) && To(Once) == 1;
    PieceLaw(newline, a, Once, w);
    OnceMeans(newline, a, w);
    assert SpellAtom(a) + [] == SpellAtom(a);
  }

  // Characters

  /** What stands for itself. */
  predicate Ordinary(x: Ch) {
    x !in ['(', ')', '|', '*', '+', '?', '.', '[', '\\', '^', '$', '{']
  }

  lemma CharacterLaw(newline: bool, x: Ch, w: Text)
    ensures Ordinary(x) ==> (U.Means(newline, [x], w) <==> w == [x])
    ensures U.Means(newline, ['\\', x], w) <==> w == [x]
    ensures U.Means(newline, ['.'], w) <==> |w| == 1 && !(newline && w[0] == '\n')
  {
    hide U.Means;
    if Ordinary(x) { OnceLaw(newline, Plain(x), w); }
    OnceLaw(newline, Quoted(x), w);
    OnceLaw(newline, Any(0), w);
  }

  // Repetition

  predicate AllAre(w: Text, x: Ch) {
    forall i :: 0 <= i < |w| ==> w[i] == x
  }

  lemma {:induction false} PowerLaw(newline: bool, x: Ch, k: nat, w: Text)
    ensures AtomPower(newline, Plain(x), k, w) <==> |w| == k && AllAre(w, x)
    decreases k
  {
    hide AtomPower;
    PowerStep(newline, x, k, w);
    if k > 0 && w != [] {
      PowerLaw(newline, x, k - 1, w[..|w| - 1]);
      assert w == w[..|w| - 1] + [w[|w| - 1]];
    }
  }

  /** One character more. */
  lemma PowerStep(newline: bool, x: Ch, k: nat, w: Text)
    ensures k == 0 ==> (AtomPower(newline, Plain(x), k, w) <==> w == [])
    ensures k > 0 ==> (AtomPower(newline, Plain(x), k, w) <==>
      w != [] && w[|w| - 1] == x && AtomPower(newline, Plain(x), k - 1, w[..|w| - 1]))
  {
    if k > 0 {
      if AtomPower(newline, Plain(x), k, w) {
        var i :| 0 <= i <= |w| && AtomPower(newline, Plain(x), k - 1, w[..i]) && AtomMeans(newline, Plain(x), w[i..]);
        assert w[i..] == [x] && i == |w| - 1;
        assert w[i] == w[i..][0];
      }
      if w != [] && w[|w| - 1] == x && AtomPower(newline, Plain(x), k - 1, w[..|w| - 1]) {
        var i := |w| - 1;
        assert w[i..] == [x];
        assert AtomMeans(newline, Plain(x), w[i..]);
      }
    }
  }

  /** A number in decimal digits. */
  function Decimal(n: nat): Text {
    (if n < 10 then [] else Decimal(n / 10)) + ["0123456789"[n % 10]]
  }

  lemma {:induction false} DecimalIs(n: nat)
    ensures Digits(Decimal(n)) && Number(Decimal(n)) == n
    decreases n
  {
    var d := "0123456789"[n % 10];
    assert IsDigit(d) && DigitValue(d) == n % 10;
    var rest := if n < 10 then [] else Decimal(n / 10);
    if n >= 10 { DecimalIs(n / 10); }
    assert (rest + [d])[..|rest|] == rest;
    assert Number([]) == 0;
  }

  /** x{m,n}, x{m} and x{m,} */
  function RepeatText(x: Ch, m: nat, hi: Hi): Text {
    [x, '{'] + Decimal(m) + SpellHi(hi) + ['}']
  }

  lemma RepeatSpelled(x: Ch, m: nat, hi: Hi)
    ensures RepeatText(x, m, hi) == SpellAtom(Plain(x)) + SpellRep(Bound(Decimal(m), hi))
  {
    hide Decimal, SpellHi;
    assert [x, '{'] == [x] + ['{'];
  }

  lemma OrdinaryOk(x: Ch, follow: Text)
    requires Ordinary(x)
    ensures AtomOk(Plain(x), follow)
  {
  }

  lemma CharRepeats(newline: bool, x: Ch, r: Rep, w: Text)
    ensures PieceMeans(newline, Piece(Plain(x), r), w) <==>
      AllAre(w, x) && From(r) <= |w| && (To(r) == INFINITY || |w| <= To(r))
  {
    hide AtomPower, From, To, AllAre;
    forall k: nat
      ensures AtomPower(newline, Plain(x), k, w) <==> |w| == k && AllAre(w, x)
    {
      PowerLaw(newline, x, k, w);
    }
    if AllAre(w, x) { assert AtomPower(newline, Plain(x), |w|, w); }
  }

  lemma CharPieceLaw(newline: bool, x: Ch, r: Rep, w: Text)
    requires Ordinary(x) && RepOk(r, []) && To(r) != 0
    ensures U.Means(newline, [x] + SpellRep(r), w) <==>
      AllAre(w, x) && From(r) <= |w| && (To(r) == INFINITY || |w| <= To(r))
  {
    hide U.Means, AtomOk, PieceMeans, RepOk, SpellRep, From, To, AllAre;
    OrdinaryOk(x, SpellRep(r));
    PieceLaw(newline, Plain(x), r, w);
    CharRepeats(newline, x, r, w);
  }

  /** x?, x+ and x* */
  lemma ShortRepeats(newline: bool, x: Ch, w: Text)
    requires Ordinary(x)
    ensures U.Means(newline, [x, '?'], w) <==> w == [] || w == [x]
    ensures U.Means(newline, [x, '+'], w) <==> |w| >= 1 && AllAre(w, x)
    ensures U.Means(newline, [x, '*'], w) <==> AllAre(w, x)
  {
    hide U.Means;
    CharPieceLaw(newline, x, Opt, w);
    CharPieceLaw(newline, x, Plus, w);
    CharPieceLaw(newline, x, Star, w);
    assert [x] + ['?'] == [x, '?'] && [x] + ['+'] == [x, '+'] && [x] + ['*'] == [x, '*'];
    assert w == [x] <==> |w| == 1 && AllAre(w, x);
  }

  /** x{m,n}, x{m} and x{m,}: that many, as far as the numbers are allowed; others are no patterns. */
  lemma BoundedRepeats(newline: bool, x: Ch, m: nat, n: nat, w: Text)
    requires Ordinary(x)
    ensures U.WellFormed(RepeatText(x, m, UpTo(Decimal(n)))) <==> m <= n <= 255 && 1 <= n
    ensures U.WellFormed(RepeatText(x, m, Exactly)) <==> 1 <= m <= 255
    ensures U.WellFormed(RepeatText(x, m, AtLeast)) <==> m <= 255
    ensures m <= n <= 255 && 1 <= n ==> (U.Means(newline, RepeatText(x, m, UpTo(Decimal(n))), w) <==> AllAre(w, x) && m <= |w| <= n)
    ensures 1 <= m <= 255 ==> (U.Means(newline, RepeatText(x, m, Exactly), w) <==> AllAre(w, x) && |w| == m)
    ensures m <= 255 ==> (U.Means(newline, RepeatText(x, m, AtLeast), w) <==> AllAre(w, x) && |w| >= m)
  {
    hide U.Means, U.WellFormed, AllAre, Decimal, RepeatText, Number;
    DecimalIs(m);
    DecimalIs(n);
    BoundLaw(newline, x, m, UpTo(Decimal(n)), w);
    BoundLaw(newline, x, m, Exactly, w);
    BoundLaw(newline, x, m, AtLeast, w);
  }

  lemma BoundLaw(newline: bool, x: Ch, m: nat, hi: Hi, w: Text)
    requires Ordinary(x) && (hi.UpTo? ==> Digits(hi.hi))
    ensures var r := Bound(Decimal(m), hi);
      && (U.WellFormed(RepeatText(x, m, hi)) <==> Sensible(r) && To(r) != 0)
      && (Sensible(r) && To(r) != 0 ==> (U.Means(newline, RepeatText(x, m, hi), w) <==>
            AllAre(w, x) && From(r) <= |w| && (To(r) == INFINITY || |w| <= To(r))))
  {
    hide U.Means, U.Reads, AllAre, Decimal, RepeatText, Number, SpellRep, Sensible, From, To;
    var r := Bound(Decimal(m), hi);
    DecimalIs(m);
    RepeatSpelled(x, m, hi);
    if Sensible(r) && To(r) != 0 {
      assert RepOk(r, []);
      CharPieceLaw(newline, x, r, w);
      OrdinaryOk(x, SpellRep(r));
      OnePieceReads(Plain(x), r);
    }
    if U.WellFormed(RepeatText(x, m, hi)) {
      var t :| U.Reads(t, RepeatText(x, m, hi));
      BoundRead(t, x, Decimal(m), hi);
    }
  }

  /** What a pattern of a character and bounds is read as. */
  lemma BoundRead(t: Tree, x: Ch, lo: Text, hi: Hi)
    requires Ordinary(x) && Digits(lo) && (hi.UpTo? ==> Digits(hi.hi)) && U.Reads(t, [x] + SpellRep(Bound(lo, hi)))
    ensures Sensible(Bound(lo, hi)) && To(Bound(lo, hi)) != 0
  {
    hide SpellBranch, BranchOk, SpellRep, SpellAtom, AtomOk, Sensible, To, SpellHi, Digits, AllDigits, Number;
    var s := [x] + SpellRep(Bound(lo, hi));
    U.TreeFirst(t, []);
    var b, f := t.branch, C.FirstFollow(t, []);
    assert SpellTree(t) + [] == s;
    DoneSpelled(f);
    assert b.Then?;
    var r := SpellBranch(b.rest) + f;
    U.PieceFirst(b, f);
    BranchParts(b, f);
    C.SimpleDue(s, x, SpellRep(Bound(lo, hi)), b.piece.atom, SpellRep(b.piece.rep) + r);
    R.BoundBegins(lo, hi, []);
    assert SpellRep(Bound(lo, hi)) + [] == SpellRep(Bound(lo, hi));
    SameBound(b.piece.rep, r, lo, hi);
    if b.rest.Then? { C.BranchBegins(b.rest, f); }
    NotVanishing(t, b);
  }

  lemma DoneSpelled(f: Text)
    ensures SpellBranch(Done) + f == f
  {
  }

  lemma BranchParts(b: Branch, f: Text)
    requires BranchOk(b, f) && b.Then?
    ensures var r := SpellBranch(b.rest) + f;
      AtomOk(b.piece.atom, SpellRep(b.piece.rep) + r) && RepOk(b.piece.rep, r) && BranchOk(b.rest, f)
  {
    hide AtomOk, RepOk, SpellRep, SpellAtom;
  }

  lemma NotVanishing(t: Tree, b: Branch)
    requires b == t.branch && TreeOk(t, []) && b.Then? && b.rest == Done
    ensures To(b.piece.rep) != 0
  {
    hide BranchOk, To;
    assert Vanishes(b.rest);
    assert !Vanishes(b);
  }

  /** Bounds are read as what they are written as. */
  lemma SameBound(q: Rep, f: Text, lo: Text, hi: Hi)
    requires SpellRep(q) + f == SpellRep(Bound(lo, hi)) && RepOk(q, f) && Digits(lo) && (hi.UpTo? ==> Digits(hi.hi))
    ensures q == Bound(lo, hi) && f == [] && Sensible(q)
  {
    hide SpellRep, Sensible, Repeats, SpellHi, Number;
    var none: Text := [];
    var s := SpellRep(Bound(lo, hi));
    assert s + none == s;
    R.BoundBegins(lo, hi, none);
    R.RepBegins(s, q, f);
    assert Repeats(s) by { BoundRepeats(s); }
    var f', g' := ['}'] + f, ['}'] + none;
    R.BoundSpelling(q.lo, q.hi, f);
    R.BoundSpelling(lo, hi, none);
    B.Cancel(['{'], q.lo + (SpellHi(q.hi) + f'), lo + (SpellHi(hi) + g'));
    R.HiBegins(q.hi, f');
    R.HiBegins(hi, g');
    U.SameDigits(q.lo, SpellHi(q.hi) + f', lo, SpellHi(hi) + g');
    U.SameHi(q.hi, f', hi, g');
    B.Cancel(['}'], f, none);
  }

  lemma BoundRepeats(s: Text)
    requires |s| > 1 && s[0] == '{' && IsDigit(s[1])
    ensures Repeats(s)
  {
  }

  // Lists of characters

  /** What may stand anywhere in a list for itself. */
  predicate Listable(cs: Text) {
    forall i :: 0 <= i < |cs| ==> cs[i] !in [']', '-', '[', '^']
  }

  function TermsOf(cs: Text): seq<Term> {
    seq(|cs|, i requires 0 <= i < |cs| => One(cs[i]))
  }

  /** [cs], led by ] or - or not, ended by - or not. */
  function ListText(invert: bool, lead: Text, cs: Text, dash: bool): Text {
    ['['] + (if invert then ['^'] else []) + lead + cs + (if dash then ['-'] else []) + [']']
  }

  lemma {:induction false} TermsOfAre(cs: Text, end: Text)
    requires Listable(cs) && (|end| > 1 && end[0] == '-' ==> end[1] == ']')
    ensures SpellTerms(TermsOf(cs)) == cs && TermsOk(TermsOf(cs), end)
    ensures forall c :: c in TermsSet(TermsOf(cs)) <==> c in cs
    decreases |cs|
  {
    var ts := TermsOf(cs);
    if cs != [] {
      var n := |cs| - 1;
      assert ts[..n] == TermsOf(cs[..n]) && ts[n] == One(cs[n]);
      assert TermOk(One(cs[n]), end);
      TermsOfAre(cs[..n], [cs[n]] + end);
      assert cs[..n] + [cs[n]] == cs;
    }
  }

  /** A list is led by ] or -, or by a character of its own. */
  predicate Led(lead: Text, cs: Text) {
    lead == [']'] || lead == ['-'] || (lead == [] && cs != [])
  }

  function ListOf(invert: bool, lead: Text, cs: Text, dash: bool): Brack {
    Brack(invert, lead, TermsOf(cs), dash)
  }

  lemma ListSpelled(invert: bool, lead: Text, cs: Text, dash: bool)
    requires Listable(cs)
    ensures SpellAtom(Bracket(ListOf(invert, lead, cs, dash), 0)) == ListText(invert, lead, cs, dash)
  {
    hide SpellTerms, TermsOf, TermsOk, TermsSet;
    TermsOfAre(cs, [']']);
    var b := ListOf(invert, lead, cs, dash);
    var head := SpellInvert(invert) + lead + cs;
    assert SpellBrack(b) == head + SpellEnd(dash);
    assert SpellEnd(dash) == (if dash then ['-'] else []) + [']'];
    Associate(head, if dash then ['-'] else [], [']']);
    ListHead(invert, lead, cs, dash);
  }

  lemma ListHead(invert: bool, lead: Text, cs: Text, dash: bool)
    ensures ['['] + (SpellInvert(invert) + lead + cs + (if dash then ['-'] else []) + [']']) == ListText(invert, lead, cs, dash)
  {
  }

  lemma ListOk(invert: bool, lead: Text, cs: Text, dash: bool)
    requires Listable(cs) && Led(lead, cs)
    ensures BrackOk(ListOf(invert, lead, cs, dash), [])
  {
    hide SpellTerms, TermsOf, TermsOk, TermsSet;
    var end := SpellEnd(dash) + [];
    assert end == SpellEnd(dash);
    TermsOfAre(cs, end);
    if lead == [] { assert (cs + end)[0] == cs[0]; }
  }

  lemma ListHas(invert: bool, lead: Text, cs: Text, dash: bool, c: Ch)
    requires Listable(cs)
    ensures c in Listed(ListOf(invert, lead, cs, dash)) <==> c in lead || c in cs || (dash && c == '-')
  {
    hide SpellTerms, TermsOf, TermsOk, TermsSet;
    TermsOfAre(cs, [']']);
  }

  /** A list stands for the characters in it, one after ^ for all others but perhaps a newline. */
  lemma ListLaw(newline: bool, invert: bool, lead: Text, cs: Text, dash: bool, w: Text)
    requires Listable(cs) && Led(lead, cs)
    ensures U.Means(newline, ListText(invert, lead, cs, dash), w) <==>
      |w| == 1 && if w[0] in lead || w[0] in cs || (dash && w[0] == '-') then !invert else invert && !(newline && w[0] == '\n')
  {
    hide U.Means, Listed, ListText, BrackOk, SpellAtom, TermsOf, Listable, Led;
    ListSpelled(invert, lead, cs, dash);
    ListOk(invert, lead, cs, dash);
    OnceLaw(newline, Bracket(ListOf(invert, lead, cs, dash), 0), w);
    if |w| == 1 { ListHas(invert, lead, cs, dash, w[0]); }
  }

  // Groups, bars, and one after the other

  lemma BarLaw(newline: bool, p: Text, q: Text, w: Text)
    requires U.WellFormed(p) && U.WellFormed(q)
    ensures U.WellFormed(p + ['|'] + q)
    ensures U.Means(newline, p + ['|'] + q, w) <==> U.Means(newline, p, w) || U.Means(newline, q, w)
  {
    hide U.Means, U.Reads, TreeMeans, AltTree;
    var t, u :| U.Reads(t, p) && U.Reads(u, q);
    AltReads(t, u, p, q);
    AltMeans(newline, t, u, w);
    U.MeansByReading(newline, t, p, w);
    U.MeansByReading(newline, u, q, w);
    U.MeansByReading(newline, AltTree(t, u), p + ['|'] + q, w);
  }

  /** (p), (p)?, and (p)+ and (p)* by what is behind their last repetition. */
  lemma GroupLaw(newline: bool, p: Text, w: Text)
    requires U.WellFormed(p)
    ensures U.Means(newline, GroupText(p, Once), w) <==> U.Means(newline, p, w)
    ensures U.Means(newline, GroupText(p, Opt), w) <==> w == [] || U.Means(newline, p, w)
    ensures U.Means(newline, GroupText(p, Star), w) <==> w == [] || U.Means(newline, GroupText(p, Plus), w)
    ensures U.Means(newline, GroupText(p, Plus), w) <==>
      exists i :: 0 <= i <= |w| && U.Means(newline, GroupText(p, Star), w[..i]) && U.Means(newline, p, w[i..])
  {
    hide U.Means, U.Reads, PieceMeans, GroupText, TreeMeans;
    var t :| U.Reads(t, p);
    var a := Group(1, t);
    forall r, v | Short(r)
      ensures U.Means(newline, GroupText(p, r), v) <==> PieceMeans(newline, Piece(a, r), v)
    {
      GroupReads(t, p, r);
      OnePieceMeans(newline, a, r, v);
      U.MeansByReading(newline, OnePiece(a, r), GroupText(p, r), v);
    }
    forall v
      ensures U.Means(newline, p, v) <==> AtomMeans(newline, a, v)
    {
      U.MeansByReading(newline, t, p, v);
    }
    RepeatedPieces(newline, a, w);
  }

  /** Repetition of any atom. */
  lemma RepeatedPieces(newline: bool, a: Atom, w: Text)
    ensures PieceMeans(newline, Piece(a, Once), w) <==> AtomMeans(newline, a, w)
    ensures PieceMeans(newline, Piece(a, Opt), w) <==> w == [] || AtomMeans(newline, a, w)
    ensures PieceMeans(newline, Piece(a, Star), w) <==> w == [] || PieceMeans(newline, Piece(a, Plus), w)
    ensures PieceMeans(newline, Piece(a, Plus), w) <==>
      exists i :: 0 <= i <= |w| && PieceMeans(newline, Piece(a, Star), w[..i]) && AtomMeans(newline, a, w[i..])
  {
    hide AtomMeans;
    OnceMeans(newline, a, w);
    OptMeans(newline, a, w);
    StarMeans(newline, a, w);
    PlusMeans(newline, a, w);
  }

  /** How often a piece may be repeated. */
  predicate Often(r: Rep, k: nat) {
    From(r) <= k && (To(r) == INFINITY || k <= To(r))
  }

  /** w is k texts of the atom. */
  ghost predicate Copies(newline: bool, a: Atom, k: nat, w: Text) {
    AtomPower(newline, a, k, w)
  }

  lemma CopiesAre(newline: bool, a: Atom, k: nat, w: Text)
    ensures Copies(newline, a, k, w) <==> AtomPower(newline, a, k, w)
  {
    hide AtomPower;
  }

  lemma PieceTimes(newline: bool, a: Atom, r: Rep, w: Text)
    ensures PieceMeans(newline, Piece(a, r), w) <==> exists k: nat :: Often(r, k) && Copies(newline, a, k, w)
  {
    hide AtomPower, From, To, Copies;
    forall k: nat
      ensures Copies(newline, a, k, w) <==> AtomPower(newline, a, k, w)
    {
      CopiesAre(newline, a, k, w);
    }
    forall k: nat
      ensures Often(r, k) <==> From(r) <= k && (To(r) == INFINITY || k <= To(r))
    {
    }
  }

  lemma OptMeans(newline: bool, a: Atom, w: Text)
    ensures PieceMeans(newline, Piece(a, Opt), w) <==> w == [] || PieceMeans(newline, Piece(a, Once), w)
  {
    hide Copies, PieceMeans;
    PieceTimes(newline, a, Opt, w);
    PieceTimes(newline, a, Once, w);
    NoPower(newline, a, w);
    assert Often(Opt, 0) && Often(Opt, 1) && Often(Once, 1);
  }

  lemma NoPower(newline: bool, a: Atom, w: Text)
    ensures Copies(newline, a, 0, w) <==> w == []
  {
  }

  lemma StarMeans(newline: bool, a: Atom, w: Text)
    ensures PieceMeans(newline, Piece(a, Star), w) <==> w == [] || PieceMeans(newline, Piece(a, Plus), w)
  {
    hide Copies, PieceMeans;
    PieceTimes(newline, a, Star, w);
    PieceTimes(newline, a, Plus, w);
    NoPower(newline, a, w);
    assert forall k: nat :: Often(Star, k) && (k >= 1 <==> Often(Plus, k));
    if PieceMeans(newline, Piece(a, Star), w) {
      var k: nat :| Often(Star, k) && Copies(newline, a, k, w);
      if k > 0 { assert Often(Plus, k); }
    }
  }

  lemma PlusMeans(newline: bool, a: Atom, w: Text)
    ensures PieceMeans(newline, Piece(a, Plus), w) <==>
      exists i :: 0 <= i <= |w| && PieceMeans(newline, Piece(a, Star), w[..i]) && AtomMeans(newline, a, w[i..])
  {
    hide AtomMeans, Copies, PieceMeans;
    PieceTimes(newline, a, Plus, w);
    if PieceMeans(newline, Piece(a, Plus), w) {
      var k: nat :| Often(Plus, k) && Copies(newline, a, k, w);
      PowerSnoc(newline, a, k, w);
      var i :| 0 <= i <= |w| && Copies(newline, a, k - 1, w[..i]) && AtomMeans(newline, a, w[i..]);
      PieceTimes(newline, a, Star, w[..i]);
      assert Often(Star, k - 1);
    }
    if i :| 0 <= i <= |w| && PieceMeans(newline, Piece(a, Star), w[..i]) && AtomMeans(newline, a, w[i..]) {
      PieceTimes(newline, a, Star, w[..i]);
      var k: nat :| Often(Star, k) && Copies(newline, a, k, w[..i]);
      PowerSnoc(newline, a, k + 1, w);
      assert Often(Plus, k + 1);
    }
  }

  /** One text of the atom more. */
  lemma PowerSnoc(newline: bool, a: Atom, k: nat, w: Text)
    requires k > 0
    ensures Copies(newline, a, k, w) <==> exists i :: 0 <= i <= |w| && Copies(newline, a, k - 1, w[..i]) && AtomMeans(newline, a, w[i..])
  {
    hide AtomMeans;
  }

  // Words

  /** A { before anything but a digit stands for itself too. */
  predicate LiteralAt(s: Text, i: nat)
    requires i < |s|
  {
    Ordinary(s[i]) || (s[i] == '{' && !(i + 1 < |s| && IsDigit(s[i + 1])))
  }

  predicate Literally(s: Text) {
    forall i :: 0 <= i < |s| ==> LiteralAt(s, i)
  }

  function WordOf(s: Text): Branch {
    if s == [] then Done else Then(Piece(Plain(s[0]), Once), WordOf(s[1..]))
  }

  lemma {:induction false} WordOk(s: Text)
    requires Literally(s)
    ensures SpellBranch(WordOf(s)) == s && BranchOk(WordOf(s), []) && (s != [] ==> !Vanishes(WordOf(s)))
    decreases |s|
  {
    if s == [] {
      DoneSpelled([]);
    } else {
      var c, rest := s[0], s[1..];
      LiterallyRest(s);
      WordOk(rest);
      assert s == [c] + rest;
      var p := Piece(Plain(c), Once);
      PlainPiece(c, rest);
      hide PieceOk, SpellPiece, WordOf;
      var b := WordOf(s);
      assert b == Then(p, WordOf(rest)) by { WordFirst(s); }
      assert SpellBranch(b) == SpellPiece(p) + SpellBranch(WordOf(rest));
      assert SpellBranch(WordOf(rest)) + [] == rest;
    }
  }

  lemma WordFirst(s: Text)
    requires s != []
    ensures WordOf(s) == Then(Piece(Plain(s[0]), Once), WordOf(s[1..]))
  {
  }

  lemma LiterallyRest(s: Text)
    requires s != [] && Literally(s)
    ensures Literally(s[1..]) && !Repeats(s[1..])
    ensures Ordinary(s[0]) || (s[0] == '{' && !(s[1..] != [] && IsDigit(s[1..][0])))
  {
    forall i | 0 <= i < |s[1..]|
      ensures LiteralAt(s[1..], i)
    {
      assert LiteralAt(s, i + 1);
    }
    assert LiteralAt(s, 0) && (|s| > 1 ==> LiteralAt(s, 1));
    assert |s| > 1 ==> s[1..][0] == s[1];
    assert |s| > 2 ==> s[1..][1] == s[2];
  }

  lemma PlainPiece(c: Ch, f: Text)
    requires !Repeats(f) && (Ordinary(c) || (c == '{' && !(f != [] && IsDigit(f[0]))))
    ensures PieceOk(Piece(Plain(c), Once), f) && SpellPiece(Piece(Plain(c), Once)) == [c]
  {
    assert SpellRep(Once) == [] && [] + f == f;
    assert To(Once) == 1;
  }

  lemma ThenMeans(newline: bool, p: Piece, rest: Branch, w: Text)
    ensures BranchMeans(newline, Then(p, rest), w) <==>
      exists i :: 0 <= i <= |w| && PieceMeans(newline, p, w[..i]) && BranchMeans(newline, rest, w[i..])
  {
    hide PieceMeans;
  }

  lemma {:induction false} WordMeans(newline: bool, s: Text, w: Text)
    ensures BranchMeans(newline, WordOf(s), w) <==> w == s
    decreases |s|
  {
    hide PieceMeans, BranchMeans, WordOf;
    if s == [] {
      NoWordMeans(newline, w);
    } else {
      WordFirst(s);
      forall v
        ensures PieceMeans(newline, Piece(Plain(s[0]), Once), v) <==> v == [s[0]]
        ensures BranchMeans(newline, WordOf(s[1..]), v) <==> v == s[1..]
      {
        OnceMeans(newline, Plain(s[0]), v);
        WordMeans(newline, s[1..], v);
      }
      ThenMeans(newline, Piece(Plain(s[0]), Once), WordOf(s[1..]), w);
      OneAndRest(s, w);
    }
  }

  lemma NoWordMeans(newline: bool, w: Text)
    ensures BranchMeans(newline, WordOf([]), w) <==> w == []
  {
  }

  lemma OneAndRest(s: Text, w: Text)
    requires s != []
    ensures w == s <==> exists i :: 0 <= i <= |w| && w[..i] == [s[0]] && w[i..] == s[1..]
  {
    assert s == [s[0]] + s[1..];
    if i :| 0 <= i <= |w| && w[..i] == [s[0]] && w[i..] == s[1..] { assert w == w[..i] + w[i..]; }
    if w == s { assert w[..1] == [s[0]] && w[1..] == s[1..]; }
  }

  /** Ordinary characters one after the other mean themselves, and nothing else. */
  lemma WordLaw(newline: bool, s: Text, w: Text)
    requires Literally(s) && s != []
    ensures U.Means(newline, s, w) <==> w == s
  {
    hide U.Means, BranchOk, SpellBranch, WordOf, Vanishes, Literally;
    WordOk(s);
    var t := Only(WordOf(s));
    assert U.Reads(t, s);
    U.MeansByReading(newline, t, s, w);
    WordMeans(newline, s, w);
    assert TreeMeans(newline, t, w) <==> BranchMeans(newline, WordOf(s), w);
  }

  // What is no pattern

  /** No pattern is empty, or begins with a bar, a right parenthesis or a repetition; and none is repeated twice. */
  lemma Refused(p: Text, x: Ch, a: Ch, b: Ch, z: Text)
    requires Ordinary(x) && a in ['*', '+', '?'] && b in ['*', '+', '?']
    ensures U.WellFormed(p) ==> p != [] && p[0] !in ['|', ')', '*', '+', '?'] && !(|p| > 1 && p[0] == '{' && IsDigit(p[1]))
    ensures !U.WellFormed([x, a, b] + z)
  {
    hide U.Reads;
    forall t, s | U.Reads(t, s)
      ensures s != [] && s[0] !in ['|', ')', '*', '+', '?'] && !(|s| > 1 && s[0] == '{' && IsDigit(s[1]))
    {
      Beginning(t, s);
    }
    forall t
      ensures !U.Reads(t, [x, a, b] + z)
    {
      RepeatedTwice(t, x, a, b, z);
    }
  }

  lemma FirstPiece(t: Tree, s: Text) returns (p: Piece, f: Text)
    requires U.Reads(t, s)
    ensures s == SpellAtom(p.atom) + (SpellRep(p.rep) + f) && AtomOk(p.atom, SpellRep(p.rep) + f) && RepOk(p.rep, f)
  {
    hide SpellBranch, BranchOk, SpellTree, TreeOk, SpellAtom, SpellRep, AtomOk, RepOk, To;
    U.TreeFirst(t, []);
    var b, g := t.branch, C.FirstFollow(t, []);
    assert SpellTree(t) + [] == s;
    Begun(t);
    p, f := b.piece, SpellBranch(b.rest) + g;
    U.PieceFirst(b, g);
    BranchParts(b, g);
  }

  lemma Begun(t: Tree)
    requires TreeOk(t, [])
    ensures t.branch.Then?
  {
    hide BranchOk, To;
    assert !Vanishes(t.branch);
  }

  lemma Beginning(t: Tree, s: Text)
    requires U.Reads(t, s)
    ensures s != [] && s[0] !in ['|', ')', '*', '+', '?'] && !(|s| > 1 && s[0] == '{' && IsDigit(s[1]))
  {
    hide U.Reads, SpellAtom, SpellRep, AtomOk, RepOk, BrackOk, SpellBrack, TreeOk, SpellTree, IsDigit;
    var p, f := FirstPiece(t, s);
    var r := SpellRep(p.rep) + f;
    C.AtomDue(s, p.atom, r);
    if s[0] != '(' {
      var c, u := s[0], s[1..];
      assert s == [c] + u;
      C.SimpleDue(s, c, u, p.atom, r);
      if c == '{' { assert PlainOk(c, u) && (|s| > 1 ==> u[0] == s[1]); }
    }
  }

  lemma RepeatedTwice(t: Tree, x: Ch, a: Ch, b: Ch, z: Text)
    requires Ordinary(x) && a in ['*', '+', '?'] && b in ['*', '+', '?']
    ensures !U.Reads(t, [x, a, b] + z)
  {
    hide U.Reads, SpellAtom, SpellRep, AtomOk;
    var s, r := [x, a, b] + z, [a, b] + z;
    assert s == [x] + r && r[1..] == [b] + z;
    assert Repeats(r) && Repeats(r[1..]);
    if U.Reads(t, s) {
      var p, f := FirstPiece(t, s);
      C.SimpleDue(s, x, r, p.atom, SpellRep(p.rep) + f);
      R.RepBegins(r, p.rep, f);
      assert false;
    }
  }
}
