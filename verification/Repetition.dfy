/**
  Repetition operators: what the compiler reads after an atom, and what it does to the atom's code.
 */
module Repetition {
  import opened Strip
  import opened Pattern
  import opened Spelling
  import opened Grammar
  import opened CharSets
  import opened Emit
  import Brackets

  predicate NoDigit(f: Text) {
    f != [] ==> !IsDigit(f[0])
  }

  /** More digits, no smaller a number. */
  lemma {:induction false} NumberGrows(d: Text, i: nat)
    requires i <= |d|
    ensures Number(d[..i]) <= Number(d)
    decreases |d|
  {
    if i < |d| {
      NumberGrows(d[..|d| - 1], i);
      assert d[..|d| - 1][..i] == d[..i];
    } else {
      assert d[..i] == d;
    }
  }

  /** One more digit read; d is what is due. */
  lemma DigitRead(s: Text, digits: Text, c: Ch, rest: Text)
    requires s == digits + ([c] + rest)
    ensures s == (digits + [c]) + rest
    ensures Number(digits + [c]) == Number(digits) * 10 + DigitValue(c)
  {
    assert (digits + [c])[..|digits|] == digits;
  }

  lemma DigitDue(digits: Text, r: Text, d: Text, f: Text)
    requires digits + r == d + f && AllDigits(digits) && AllDigits(d) && NoDigit(f)
    ensures |digits| <= |d| && digits == d[..|digits|] && r == d[|digits|..] + f
  {
    var s := d + f;
    assert forall i :: 0 <= i < |digits| ==> IsDigit(s[i]);
    assert |s| == |d| || !IsDigit(s[|d|]);
    assert digits == s[..|digits|] && r == s[|digits|..];
  }

  /** A repetition count; d is the one that is due, if one is. */
  method PCount(p: Parse, ghost d: Text, ghost f: Text) returns (count: nat, ghost digits: Text)
    requires p.Valid()
    modifies p`next, p`error, p`pattern
    ensures p.Valid() && (old(p.error) != OK ==> p.error == old(p.error))
    ensures p.error == OK ==>
      old(p.Rest()) == digits + p.Rest() && Digits(digits) && count == Number(digits) <= DUPMAX
    ensures old(p.Due(d, f)) && Digits(d) && Number(d) <= DUPMAX && NoDigit(f) ==>
      p.error == OK && p.Rest() == f && digits == d
  {
    hide Number, SetStore.Valid, Parse.Rest, Parse.Valid;
    count, digits := 0, [];
    NoNumber();
    assert [] + p.Rest() == p.Rest();
    var ndigits := 0;
    while p.More() && IsDigit(p.Peek()) && count <= DUPMAX
      invariant p.Valid() && p.error == old(p.error)
      invariant old(p.Rest()) == digits + p.Rest()
      invariant ndigits == |digits| && AllDigits(digits) && count == Number(digits)
      decreases |p.Rest()|
    {
      ghost var was := digits;
      var c := p.GetNext();
      count := count * 10 + (c as int - '0' as int);
      ndigits := ndigits + 1;
      digits := digits + [c];
      DigitRead(old(p.Rest()), was, c, p.Rest());
    }
    if old(p.Due(d, f)) && Digits(d) && Number(d) <= DUPMAX && NoDigit(f) {
      DigitDue(digits, p.Rest(), d, f);
      NumberGrows(d, |digits|);
      CountEnds(d, |digits|, f, p.Rest());
    }
    p.Require(ndigits > 0 && count <= DUPMAX, BADBR);
  }

  lemma CountEnds(d: Text, i: nat, f: Text, r: Text)
    requires i <= |d| && r == d[i..] + f && AllDigits(d) && NoDigit(r)
    ensures i == |d| && r == f && d[..i] == d
  {
    var end := d[i..];
    assert end <= r;
    if end == [] { assert r == f; }
  }

  lemma NoNumber()
    ensures Number([]) == 0
  {
  }

  /** The upper bound written as hi after a lower bound of lo. */
  function Upper(lo: nat, hi: Hi): nat {
    match hi case Exactly => lo case AtLeast => INFINITY case UpTo(h) => Number(h)
  }

  predicate UpperOk(lo: nat, hi: Hi) {
    hi.UpTo? ==> Digits(hi.hi) && lo <= Number(hi.hi) <= DUPMAX
  }

  /** The upper bound, after the lower one: the same, none, or as written. */
  method PUpper(p: Parse, count: nat, ghost e: Hi, ghost f: Text) returns (count2: nat, ghost hi: Hi)
    requires p.Valid()
    modifies p`next, p`error, p`pattern
    ensures p.Valid() && (old(p.error) != OK ==> p.error == old(p.error))
    ensures p.error == OK ==>
      old(p.Rest()) == SpellHi(hi) + p.Rest() && count2 == Upper(count, hi) && UpperOk(count, hi)
    ensures old(p.Due(SpellHi(e), f)) && UpperOk(count, e) && Begins(f, '}') ==> p.error == OK && p.Rest() == f && hi == e
  {
    hide Number, AllDigits, SetStore.Valid, Parse.Valid, Parse.Rest, UpperOk, Begins;
    hi := Exactly;
    count2 := count;
    ghost var s := p.Rest();
    if s == SpellHi(e) + f && UpperOk(count, e) && Begins(f, '}') { UpperSpelled(s, count, e, f); }
    UpperSame(count);
    var comma := p.Eat(',');
    if comma {
      CommaBehind(s, p.Rest());
      count2, hi := PAfterComma(p, count, e, f);
      HiSpelled(hi, p.Rest());
    }
  }

  /** What is written after the comma. */
  function HiDigits(hi: Hi): Text {
    if hi.UpTo? then hi.hi else []
  }

  lemma HiSpelled(hi: Hi, r: Text)
    requires !hi.Exactly?
    ensures SpellHi(hi) + r == [','] + (HiDigits(hi) + r)
  {
  }

  lemma UpperSame(count: nat)
    ensures SpellHi(Exactly) == [] && Upper(count, Exactly) == count && UpperOk(count, Exactly)
  {
  }

  lemma CommaBehind(s: Text, r: Text)
    requires s == [','] + r
    ensures s != [] && s[0] == ',' && s[1..] == r
  {
  }

  lemma UpperSpelled(s: Text, count: nat, e: Hi, f: Text)
    requires s == SpellHi(e) + f && Begins(f, '}') && UpperOk(count, e)
    ensures s != [] && (s[0] == ',' <==> !e.Exactly?)
    ensures e.Exactly? ==> s == f
    ensures !e.Exactly? ==> s[1..] == HiDigits(e) + f
  {
    hide Number, AllDigits;
    UpperDue(s, e, f);
  }

  /** Behind a comma: digits, or none. */
  method PAfterComma(p: Parse, count: nat, ghost e: Hi, ghost f: Text) returns (count2: nat, ghost hi: Hi)
    requires p.Valid()
    modifies p`next, p`error, p`pattern
    ensures p.Valid() && (old(p.error) != OK ==> p.error == old(p.error)) && !hi.Exactly?
    ensures p.error == OK ==> old(p.Rest()) == HiDigits(hi) + p.Rest() && count2 == Upper(count, hi) && UpperOk(count, hi)
    ensures old(p.Due(HiDigits(e), f)) && !e.Exactly? && UpperOk(count, e) && Begins(f, '}') ==>
      p.error == OK && p.Rest() == f && hi == e
  {
    hide Number, AllDigits, SetStore.Valid, Parse.Valid, Parse.Rest;
    ghost var s := p.Rest();
    if s == HiDigits(e) + f && UpperOk(count, e) && Begins(f, '}') { DigitsFirst(s, e, f); }
    PeekIsFirst(p);
    if IsDigit(p.Peek()) {
      ghost var digits;
      count2, digits := PCount(p, HiDigits(e), f);
      hi := UpTo(digits);
      p.Require(count <= count2, BADBR);
    } else {
      count2 := INFINITY;
      hi := AtLeast;
    }
  }

  lemma PeekIsFirst(p: Parse)
    requires p.Valid()
    ensures p.Peek() == if p.Rest() == [] then '\0' else p.Rest()[0]
  {
    hide SetStore.Valid;
  }

  lemma DigitsFirst(s: Text, e: Hi, f: Text)
    requires s == HiDigits(e) + f && Begins(f, '}') && (e.UpTo? ==> Digits(e.hi))
    ensures s != [] && (IsDigit(s[0]) <==> e.UpTo?)
    ensures NoDigit(f)
  {
  }

  /** What the compiler looks at to tell the forms of upper bound apart. */
  lemma UpperDue(s: Text, e: Hi, f: Text)
    requires s == SpellHi(e) + f && Begins(f, '}') && (e.UpTo? ==> Digits(e.hi))
    ensures s != [] && (s[0] == ',' <==> !e.Exactly?)
    ensures e.Exactly? ==> s == f
    ensures !e.Exactly? ==> |s| > 1 && (IsDigit(s[1]) <==> e.UpTo?)
    ensures e.AtLeast? ==> s[1..] == f
    ensures e.UpTo? ==> s[1..] == e.hi + f
  {
  }

  predicate BoundOk(lo: Text, hi: Hi) {
    Digits(lo) && Number(lo) <= DUPMAX && UpperOk(Number(lo), hi)
  }

  /** The bounds between braces, the brace that opens them having been read. */
  method PBounds(p: Parse, ghost elo: Text, ghost ehi: Hi, ghost f: Text)
      returns (count: nat, count2: nat, ghost lo: Text, ghost hi: Hi)
    requires p.Valid()
    modifies p`next, p`error, p`pattern
    ensures p.Valid() && (old(p.error) != OK ==> p.error == old(p.error))
    ensures p.error == OK ==>
      && old(p.Rest()) == lo + (SpellHi(hi) + p.Rest()) && BoundOk(lo, hi)
      && count == Number(lo) <= DUPMAX && count2 == Upper(count, hi)
    ensures old(p.Due(elo, SpellHi(ehi) + f)) && BoundOk(elo, ehi) && Begins(f, '}') ==>
      p.error == OK && p.Rest() == f && lo == elo && hi == ehi
  {
    hide Number, Digits, SetStore.Valid, Parse.Valid, Parse.Rest, SpellHi;
    HiBegins(ehi, f);
    count, lo := PCount(p, elo, SpellHi(ehi) + f);
    count2, hi := PUpper(p, count, ehi, f);
  }

  lemma HiBegins(e: Hi, f: Text)
    ensures Begins(f, '}') ==> NoDigit(SpellHi(e) + f)
  {
  }

  /** The closing brace; error heuristics if it is missing. */
  method PBrace(p: Parse)
    requires p.Valid()
    modifies p`next, p`error, p`pattern
    ensures p.Valid() && (old(p.error) != OK ==> p.error == old(p.error))
    ensures p.error == OK ==> old(p.Rest()) == ['}'] + p.Rest()
    ensures old(p.error == OK && Begins(p.Rest(), '}')) ==> p.error == OK
  {
    hide SetStore.Valid, Parse.Rest;
    var brace := p.Eat('}');
    if !brace {
      while p.More() && p.Peek() != '}'
        invariant p.Valid() && p.error == old(p.error)
        decreases |p.Rest()|
      {
        var c := p.GetNext();
      }
      p.Require(p.More(), EBRACE);
      p.SetError(BADBR);
    }
  }

  /** What a text that begins with bounds is made of. */
  lemma BoundSpelling(lo: Text, hi: Hi, f: Text)
    ensures SpellRep(Bound(lo, hi)) + f == ['{'] + (lo + (SpellHi(hi) + (['}'] + f)))
    ensures BoundOk(lo, hi) ==> Sensible(Bound(lo, hi)) && From(Bound(lo, hi)) == Number(lo) && To(Bound(lo, hi)) == Upper(Number(lo), hi)
    ensures Digits(lo) && (hi.UpTo? ==> Digits(hi.hi)) && Sensible(Bound(lo, hi)) ==> BoundOk(lo, hi)
  {
    hide SpellHi, Number, Digits;
  }

  /** x{...} */
  method PRepeat(p: Parse, pos: nat, ghost pre: seq<Sop>, ghost x: Re, ghost e: Rep, ghost f: Text) returns (ghost r: Rep)
    requires p.Valid() && p.error == OK && p.strip == pre + Code(x) && pos == |pre|
    modifies p`next, p`error, p`pattern, p`strip, p`ssize
    ensures p.Valid()
    ensures p.error == OK ==>
      && ['{'] + old(p.Rest()) == SpellRep(r) + p.Rest() && r.Bound? && BoundOk(r.lo, r.hi)
      && p.strip == pre + Code(RepRe(x, r))
    ensures ['{'] + old(p.Rest()) == SpellRep(e) + f && e.Bound? && BoundOk(e.lo, e.hi) ==>
      p.error == OK && p.Rest() == f && r == e
  {
    hide Code, Len, RepeatRe, SetStore.Valid, Parse.Valid, Parse.Rest, From, To, Number, Digits, SpellRep, BoundOk, Upper;
    ghost var s := p.Rest();
    ghost var elo, ehi := if e.Bound? then e.lo else [], if e.Bound? then e.hi else Exactly;
    if e.Bound? {
      BoundSpelling(elo, ehi, f);
      if ['{'] + s == SpellRep(e) + f { Brackets.Cancel(['{'], s, elo + (SpellHi(ehi) + (['}'] + f))); }
    }
    var count, count2;
    ghost var lo, hi;
    count, count2, lo, hi := PBounds(p, elo, ehi, ['}'] + f);
    r := Bound(lo, hi);
    BoundInRange(lo, hi);
    BoundSpelling(lo, hi, []);
    assert p.strip[pos..] == Code(x) && p.strip[..pos] == pre;
    p.Repeat(pos, count, count2, x);
    ghost var s1 := p.Rest();
    PBrace(p);
    if p.error == OK {
      BoundSpelling(lo, hi, p.Rest());
      if s1 == ['}'] + f { Brackets.Cancel(['}'], p.Rest(), f); }
    }
  }

  lemma BoundInRange(lo: Text, hi: Hi)
    ensures BoundOk(lo, hi) ==> Number(lo) <= Upper(Number(lo), hi) <= INFINITY
  {
    hide Number, Digits;
  }

  /** The form of repetition, if any, a text begins with. */
  lemma RepBegins(s: Text, e: Rep, f: Text)
    requires s == SpellRep(e) + f && RepOk(e, f)
    ensures Repeats(s) <==> e != Once
    ensures e == Once ==> s == f
    ensures e != Once ==> s[0] == match e case Star => '*' case Plus => '+' case Opt => '?' case _ => '{'
    ensures e == Star || e == Plus || e == Opt ==> s[1..] == f
  {
    hide SpellHi, Number, Sensible;
    if e.Bound? {
      BoundBegins(e.lo, e.hi, f);
    } else if e == Once {
      assert s == f;
    } else {
      assert s[1..] == f;
    }
  }

  lemma BoundBegins(lo: Text, hi: Hi, f: Text)
    requires Digits(lo)
    ensures var s := SpellRep(Bound(lo, hi)) + f; |s| > 1 && s[0] == '{' && IsDigit(s[1])
  {
    hide SpellHi, Number;
    assert SpellRep(Bound(lo, hi)) + f == ['{'] + (lo + (SpellHi(hi) + ['}'] + f));
  }

  predicate IsRepetition(p: Parse)
    reads p`pattern, p`next
  {
    p.More() && (p.Peek() == '*' || p.Peek() == '+' || p.Peek() == '?' || (p.Peek() == '{' && p.More2() && IsDigit(p.Peek2())))
  }

  lemma IsRepetitionIs(p: Parse)
    ensures IsRepetition(p) <==> Repeats(p.Rest())
  {
    hide Parse.Rest;
  }

  /** The code and the spelling of the repetitions that are one character. */
  lemma ShortReps(x: Re, f: Text)
    ensures Code(RepRe(x, Star)) == Code(Cons(Maybe(Cons(Loop(x), Nil)), Nil))
    ensures Code(RepRe(x, Plus)) == Code(Cons(Loop(x), Nil))
    ensures Code(RepRe(x, Opt)) == NodeCode(Optional(x))
    ensures RepRe(x, Once) == x && SpellRep(Once) + f == f
    ensures SpellRep(Star) == ['*'] && SpellRep(Plus) == ['+'] && SpellRep(Opt) == ['?']
  {
    hide Code, Optional;
    CodeOne(Optional(x));
  }

  /** Everything about a repetition but what follows it. */
  predicate Proper(r: Rep) {
    r.Bound? ==> BoundOk(r.lo, r.hi)
  }

  lemma ProperOk(r: Rep, f: Text)
    ensures RepOk(r, f) <==> Proper(r) && !Repeats(f)
  {
    hide Number, Digits, Repeats;
    if r.Bound? { BoundSpelling(r.lo, r.hi, []); }
  }

  /** The repetition operator that is next. */
  method POperator(p: Parse, pos: nat, ghost pre: seq<Sop>, ghost x: Re, ghost e: Rep, ghost f: Text) returns (ghost r: Rep)
    requires p.Valid() && p.strip == pre + Code(x) && pos == |pre| && IsRepetition(p)
    modifies p`next, p`error, p`pattern, p`strip, p`ssize
    ensures p.Valid()
    ensures p.error == OK ==>
      old(p.Rest()) == SpellRep(r) + p.Rest() && Proper(r) && p.strip == pre + Code(RepRe(x, r))
    ensures old(p.Due(SpellRep(e), f)) && RepOk(e, f) ==> p.error == OK && p.Rest() == f && r == e
  {
    hide Code, Len, NodeCode, RepeatRe, SetStore.Valid, Parse.Valid, Parse.Rest, SpellRep, RepRe, RepOk, Optional, BoundOk;
    ghost var s := p.Rest();
    p.Halted();
    IsRepetitionIs(p);
    ShortReps(x, f);
    ProperOk(e, f);
    if s == SpellRep(e) + f && RepOk(e, f) { RepBegins(s, e, f); }
    var c := p.GetNext();
    assert s[1..] == p.Rest();
    if c == '*' {
      r := Star;
      p.MakeLoop(pos, pre, x);
      p.MakeMaybe(pos, pre, Cons(Loop(x), Nil));
    } else if c == '+' {
      r := Plus;
      p.MakeLoop(pos, pre, x);
    } else if c == '?' {
      r := Opt;
      p.Insert(OCH_, pos);
      p.MakeOptional(pos, pre, x);
    } else {
      r := PRepeat(p, pos, pre, x, e, f);
    }
  }

  /** A repetition operator, if there is one, applied to x, which stands from pos on. */
  method PRep(p: Parse, pos: nat, ghost pre: seq<Sop>, ghost x: Re, ghost e: Rep, ghost f: Text) returns (ghost r: Rep)
    requires p.Valid() && (p.error == OK ==> p.strip == pre + Code(x) && pos == |pre|)
    modifies p`next, p`error, p`pattern, p`strip, p`ssize
    ensures p.Valid() && (old(p.error) != OK ==> p.error == old(p.error)) && |p.Rest()| <= |old(p.Rest())|
    ensures p.error == OK ==>
      old(p.Rest()) == SpellRep(r) + p.Rest() && RepOk(r, p.Rest()) && p.strip == pre + Code(RepRe(x, r))
    ensures old(p.Due(SpellRep(e), f)) && RepOk(e, f) ==> p.error == OK && p.Rest() == f && r == e
  {
    hide Code, Len, RepeatRe, SetStore.Valid, Parse.Valid, Parse.Rest, SpellRep, RepRe, RepOk, Repeats;
    ghost var s := p.Rest();
    r := Once;
    p.Halted();
    if s == SpellRep(e) + f && RepOk(e, f) { RepBegins(s, e, f); }
    ShortReps(x, s);
    IsRepetitionIs(p);
    ProperOk(Once, s);
    ProperOk(e, f);
    if !IsRepetition(p) { return; }
    r := POperator(p, pos, pre, x, e, f);
    IsRepetitionIs(p);
    ProperOk(r, p.Rest());
    if IsRepetition(p) { p.SetError(BADRPT); }
    p.Halted();
  }
}
