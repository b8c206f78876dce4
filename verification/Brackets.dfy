/**
  Bracket lists: what the compiler reads between brackets, and the set it makes of it.
 */
module Brackets {
  import opened Strip
  import opened Pattern
  import opened Spelling
  import opened Grammar
  import opened CharSets
  import opened Emit

  /** The sets, after set no has gained the members of s. */
  ghost function Gained(sets: Sets, no: nat, s: set<Ch>): (r: Sets)
    requires no < |sets|
    ensures |r| == |sets|
  {
    sets[no := sets[no] + s]
  }

  lemma GainedNothing(sets: Sets, no: nat)
    requires no < |sets|
    ensures Gained(sets, no, {}) == sets
  {
    assert sets[no] + {} == sets[no];
  }

  lemma GainedMore(sets: Sets, no: nat, s: set<Ch>, t: set<Ch>)
    requires no < |sets|
    ensures Gained(Gained(sets, no, s), no, t) == Gained(sets, no, s + t)
  {
    assert sets[no] + s + t == sets[no] + (s + t);
  }

  /** An ordinary character. */
  method Ordinary(p: Parse, c: Ch)
    requires p.Valid()
    modifies p`strip, p`ssize
    ensures p.Valid()
    ensures p.strip == if p.error == OK then old(p.strip) + [Sop(OCHAR, c as int)] else old(p.strip)
  {
    p.Emit(OCHAR, c as int);
  }

  /** A character, as one end of a range or alone. */
  method PBSymbol(p: Parse) returns (value: Ch)
    requires p.Valid()
    modifies p`next, p`error, p`pattern
    ensures p.Valid() && (old(p.error) != OK ==> p.error == old(p.error))
    ensures p.error == OK <==> old(p.error == OK && p.More() && !p.SeeTwo('[', '.'))
    ensures p.error == OK ==> old(p.Rest()) == [value] + p.Rest()
  {
    p.Require(p.More(), EBRACK);
    if p.SeeTwo('[', '.') {
      p.SetError(OUTSIDE);
    }
    value := p.GetNext();
  }

  /** The end of a range, which may be a -. */
  method PBFinish(p: Parse) returns (value: Ch)
    requires p.Valid()
    modifies p`next, p`error, p`pattern
    ensures p.Valid() && (old(p.error) != OK ==> p.error == old(p.error))
    ensures p.error == OK <==> old(p.error == OK && p.More() && !p.SeeTwo('[', '.'))
    ensures p.error == OK ==> old(p.Rest()) == [value] + p.Rest()
  {
    hide SetStore.Valid, Parse.Valid, Parse.Rest;
    var dash := p.Eat('-');
    if dash {
      value := '-';
    } else {
      value := PBSymbol(p);
    }
  }

  /** A character or a range; e is the term that is due, if one is. */
  method PBRange(p: Parse, ghost e: Term, ghost f: Text) returns (start: Ch, finish: Ch, ghost term: Term)
    requires p.Valid() && (p.error == OK ==> p.More() && BeginsTerm(p.Peek()))
    requires p.Rest() != [] && p.Rest()[0] == '[' ==> !(|p.Rest()| > 1 && (p.Rest()[1] == ':' || p.Rest()[1] == '='))
    modifies p`next, p`error, p`pattern
    ensures p.Valid() && (old(p.error) != OK ==> p.error == old(p.error))
    ensures p.error == OK ==>
      && old(p.Rest()) == SpellTerm(term) + p.Rest() && TermOk(term, p.Rest())
      && (if term.One? then term.c == start == finish else term == Range(start, finish))
    ensures old(p.Due(SpellTerm(e), f)) && TermOk(e, f) ==> p.error == OK && p.Rest() == f
  {
    hide SetStore.Valid, Parse.Valid, Parse.Rest, TermOk, SpellTerm;
    ghost var s := p.Rest();
    if s == SpellTerm(e) + f && TermOk(e, f) { TermDue(s, e, f); }
    start := PBSymbol(p);
    finish := start;
    term := One(start);
    if p.See('-') && p.More2() && p.Peek2() != ']' {
      var minus := p.GetNext();
      finish := PBFinish(p);
      term := Range(start, finish);
    }
    p.Require(start <= finish, ERANGE);
    if p.error == OK { TermRead(s, term, p.Rest()); }
  }

  /** A text that begins with a term, by what the compiler looks at. */
  lemma TermDue(s: Text, e: Term, f: Text)
    requires s == SpellTerm(e) + f && TermOk(e, f)
    ensures !(|s| > 1 && s[0] == '[' && s[1] == '.')
    ensures e.One? <==> !(|s| > 2 && s[1] == '-' && s[2] != ']')
    ensures e.One? ==> s[1..] == f
    ensures e.Range? ==> s[0] <= s[2] && s[3..] == f && !(|s| > 3 && s[2] == '[' && s[3] == '.')
  {
    if e.One? {
      assert s[1..] == f;
      assert forall i :: 0 <= i < |f| ==> f[i] == s[i + 1];
    } else {
      assert s[3..] == f;
      assert forall i :: 0 <= i < |f| ==> f[i] == s[i + 3];
    }
  }

  lemma TermRead(s: Text, t: Term, rest: Text)
    requires |s| > 0 && BeginsTerm(s[0])
    requires s[0] == '[' ==> !(|s| > 1 && (s[1] == ':' || s[1] == '=' || s[1] == '.'))
    requires t.One? ==> s == [t.c] + rest && !(|rest| > 1 && rest[0] == '-' && rest[1] != ']')
    requires t.Range? ==> s == [t.from] + (['-'] + ([t.to] + rest))
    requires t.Range? ==> t.from <= t.to && t.to != ']' && (t.to == '[' ==> !Begins(rest, '.'))
    ensures s == SpellTerm(t) + rest && TermOk(t, rest)
  {
    if t.One? {
      assert forall i :: 0 <= i < |rest| ==> rest[i] == s[i + 1];
    }
  }

  method AddRange(store: SetStore, no: nat, start: Ch, finish: Ch)
    requires store.Valid() && no < store.ncsets
    modifies store
    ensures store.Valid() && store.ncsets == old(store.ncsets)
    ensures store.Live() == Gained(old(store.Live()), no, TermSet(Range(start, finish)))
  {
    hide SetStore.Valid;
    ghost var live := store.Live();
    var i := start as int;
    while i <= finish as int
      invariant store.Valid() && store.ncsets == old(store.ncsets)
      invariant start as int <= i && (i <= finish as int + 1 || i == start as int)
      invariant store.Live() == live[no := store.Live()[no]]
      invariant forall d: Ch :: d in store.Live()[no] <==> d in live[no] || start as int <= d as int < i
    {
      store.Add(no, i as char);
      i := i + 1;
    }
    assert store.Live()[no] == live[no] + TermSet(Range(start, finish));
  }

  /** One term of a bracket list, added to set no. */
  method PBTerm(p: Parse, no: nat, ghost e: Term, ghost f: Text) returns (ghost term: Term)
    requires p.Valid() && no < p.store.ncsets && p.More() && p.Peek() != ']'
    modifies p`next, p`error, p`pattern, p.store
    ensures p.Valid() && p.store.ncsets == old(p.store.ncsets)
    ensures |p.Rest()| < |old(p.Rest())|
    ensures p.error == OK ==>
      && old(p.Rest()) == SpellTerm(term) + p.Rest() && TermOk(term, p.Rest())
      && p.store.Live() == Gained(old(p.store.Live()), no, TermSet(term))
    ensures old(p.Due(SpellTerm(e), f)) && TermOk(e, f) ==> p.error == OK && p.Rest() == f
  {
    hide SetStore.Valid, SetStore.Live, TermSet, Parse.Rest, SpellTerm, TermOk, Gained;
    term := One('-');
    if p.Rest() == SpellTerm(e) + f && TermOk(e, f) { TermStart(e, f, p.Rest()); }
    var c := '\0';
    if p.More() && p.Peek() == '[' {
      c := if p.More2() then p.Peek2() else '\0';
    } else if p.More() && p.Peek() == '-' {
      p.SetError(ERANGE);
      return;
    }
    if c == ':' || c == '=' {
      p.SetError(OUTSIDE);
      return;
    }
    var start, finish;
    start, finish, term := PBRange(p, e, f);
    AddRange(p.store, no, start, finish);
    if term.One? { OneIsRange(term.c); }
    p.Halted();
  }

  lemma TermStart(e: Term, f: Text, s: Text)
    requires s == SpellTerm(e) + f && TermOk(e, f)
    ensures s != [] && BeginsTerm(s[0]) && (s[0] == '[' && |s| > 1 ==> s[1] != ':' && s[1] != '=')
  {
  }

  lemma OneIsRange(c: Ch)
    ensures TermSet(One(c)) == TermSet(Range(c, c))
  {
  }

  lemma MoreTerms(ts: seq<Term>, t: Term)
    ensures SpellTerms(ts + [t]) == SpellTerms(ts) + SpellTerm(t)
    ensures TermsSet(ts + [t]) == TermsSet(ts) + TermSet(t)
  {
    hide SpellTerm, TermSet;
    assert (ts + [t])[..|ts|] == ts && (ts + [t])[|ts|] == t;
  }

  /** A list of terms, from its first. */
  lemma {:induction false} FirstTerm(t: Term, ts: seq<Term>, follow: Text)
    ensures SpellTerms([t] + ts) == SpellTerm(t) + SpellTerms(ts)
    ensures TermsOk([t] + ts, follow) <==> TermOk(t, SpellTerms(ts) + follow) && TermsOk(ts, follow)
    decreases |ts|
  {
    hide SpellTerm, TermOk, SpellTerms, TermsOk;
    NoTerms(follow);
    if ts == [] {
      assert [t] + ts == [] + [t];
      LastOfTerms([], t, follow);
      NoTerms(SpellTerm(t) + follow);
      assert [] + SpellTerm(t) == SpellTerm(t) + [];
    } else {
      var most, u := ts[..|ts| - 1], ts[|ts| - 1];
      FirstTerm(t, most, SpellTerm(u) + follow);
      assert [t] + ts == ([t] + most) + [u] && ts == most + [u];
      LastOfTerms([t] + most, u, follow);
      LastOfTerms(most, u, follow);
      Associate(SpellTerm(t), SpellTerms(most), SpellTerm(u));
      Associate(SpellTerms(most), SpellTerm(u), follow);
    }
  }

  lemma LastOfTerms(ts: seq<Term>, t: Term, follow: Text)
    ensures SpellTerms(ts + [t]) == SpellTerms(ts) + SpellTerm(t)
    ensures TermsOk(ts + [t], follow) <==> TermOk(t, follow) && TermsOk(ts, SpellTerm(t) + follow)
  {
    hide SpellTerm, TermOk;
    assert (ts + [t])[..|ts|] == ts && (ts + [t])[|ts|] == t;
  }

  /** The ] or - a list may begin with. */
  method PBLeader(p: Parse, no: nat) returns (ghost lead: Text)
    requires p.Valid() && no < p.store.ncsets
    modifies p`next, p.store
    ensures p.Valid() && p.store.ncsets == old(p.store.ncsets)
    ensures old(p.Rest()) == lead + p.Rest() && Leads(lead)
    ensures lead == [] ==> !Begins(p.Rest(), ']') && !Begins(p.Rest(), '-')
    ensures p.store.Live() == Gained(old(p.store.Live()), no, LeadSet(lead))
  {
    hide SetStore.Valid, SetStore.Live, Parse.Rest, LeadSet;
    lead := [];
    LeadSets();
    GainedNothing(p.store.Live(), no);
    var bracket := p.Eat(']');
    if bracket {
      lead := [']'];
      p.store.Add(no, ']');
    } else {
      var dash := p.Eat('-');
      if dash {
        lead := ['-'];
        p.store.Add(no, '-');
      }
    }
  }

  lemma LeadSets()
    ensures LeadSet([]) == {} && LeadSet([']']) == {']'} && LeadSet(['-']) == {'-'}
  {
  }

  /** The ^, and the ] or - a list may begin with. */
  method PBLead(p: Parse, no: nat) returns (invert: bool, ghost lead: Text)
    requires p.Valid() && no < p.store.ncsets
    modifies p`next, p.store
    ensures p.Valid() && p.store.ncsets == old(p.store.ncsets)
    ensures LeadIs(old(p.Rest()), invert, lead, p.Rest())
    ensures p.store.Live() == Gained(old(p.store.Live()), no, LeadSet(lead))
  {
    hide SetStore.Valid, SetStore.Live, Parse.Valid, Parse.Rest, LeadSet, Gained, Leads;
    invert := p.Eat('^');
    ghost var s := p.Rest();
    lead := PBLeader(p, no);
    Associate(SpellInvert(invert), lead, p.Rest());
    assert [] + s == s;
  }

  /** How a list begins: what is taken for ^, ] and -, and what is left. */
  predicate LeadIs(s: Text, invert: bool, lead: Text, rest: Text) {
    && s == SpellInvert(invert) + lead + rest && Leads(lead)
    && (!invert ==> !Begins(s, '^')) && (lead == [] ==> !Begins(rest, ']') && !Begins(rest, '-'))
  }

  /** A list that begins so, begins with its own ^, ] and -. */
  lemma LeadDue(s: Text, invert: bool, lead: Text, rest: Text, e: Brack, f: Text)
    requires LeadIs(s, invert, lead, rest) && s == SpellBrack(e) + f && BrackOk(e, f)
    ensures invert == e.invert && lead == e.lead && rest == SpellTerms(e.terms) + (SpellEnd(e.dash) + f)
  {
    hide SpellTerms, TermsOk, SpellInvert, SpellEnd, Leads;
    var r := SpellTerms(e.terms) + (SpellEnd(e.dash) + f);
    BrackAssociate(e, f);
    Associate(SpellInvert(invert), lead, rest);
    InvertBegins(s, invert, lead + rest);
    SameInvert(s, invert, e, r);
    Cancel(SpellInvert(invert), lead + rest, e.lead + r);
    SameLead(lead, rest, e.lead, r);
    Cancel(lead, rest, r);
  }

  lemma BrackAssociate(e: Brack, f: Text)
    ensures SpellBrack(e) + f == SpellInvert(e.invert) + (e.lead + (SpellTerms(e.terms) + (SpellEnd(e.dash) + f)))
  {
    hide SpellTerms, SpellInvert, SpellEnd;
  }

  lemma InvertBegins(s: Text, invert: bool, r: Text)
    requires s == SpellInvert(invert) + r
    ensures invert ==> Begins(s, '^')
  {
  }

  lemma Cancel(a: Text, b: Text, c: Text)
    requires a + b == a + c
    ensures b == c
  {
    assert b == (a + b)[|a|..];
    assert c == (a + c)[|a|..];
  }

  lemma SameInvert(s: Text, invert: bool, e: Brack, r: Text)
    requires s == SpellInvert(e.invert) + (e.lead + r)
    requires if invert then Begins(s, '^') else !Begins(s, '^')
    requires Leads(e.lead) && (e.lead == [] ==> LeadlessOk(e.invert, r))
    ensures invert == e.invert
  {
    if e.invert {
      assert s[0] == '^';
    } else {
      assert s == e.lead + r;
      if e.lead == [] { assert s == r; }
    }
  }

  lemma SameLead(lead: Text, rest: Text, lead': Text, rest': Text)
    requires lead + rest == lead' + rest' && Leads(lead) && Leads(lead')
    requires lead == [] ==> !Begins(rest, ']') && !Begins(rest, '-')
    requires lead' == [] ==> !Begins(rest', ']') && !Begins(rest', '-')
    ensures lead == lead'
  {
    var s := lead + rest;
    if lead == [] { assert s == rest; } else { assert s[0] == lead[0]; }
    if lead' == [] { assert s == rest'; } else { assert s[0] == lead'[0]; }
  }

  method PBTerms(p: Parse, no: nat, ghost e: seq<Term>, ghost dash: bool, ghost f: Text) returns (ghost terms: seq<Term>)
    requires p.Valid() && no < p.store.ncsets
    modifies p`next, p`error, p`pattern, p.store
    ensures p.Valid() && (old(p.error) != OK ==> p.error == old(p.error)) && p.store.ncsets == old(p.store.ncsets)
    ensures p.error == OK ==>
      && old(p.Rest()) == SpellTerms(terms) + p.Rest() && TermsOk(terms, p.Rest())
      && (p.Rest() == [] || p.Rest()[0] == ']' || p.SeeTwo('-', ']'))
      && p.store.Live() == Gained(old(p.store.Live()), no, TermsSet(terms))
    ensures old(p.Due(SpellTerms(e), SpellEnd(dash) + f)) && TermsOk(e, SpellEnd(dash) + f) ==>
      p.error == OK && p.Rest() == SpellEnd(dash) + f
  {
    hide SetStore.Valid, SetStore.Live, TermSet, SpellTerm, SpellTerms, TermOk, TermsOk, Gained, Parse.Valid, Parse.Rest;
    terms := [];
    ghost var live, end := p.store.Live(), SpellEnd(dash) + f;
    ghost var more := e;
    ghost var due := p.Due(SpellTerms(e), end) && TermsOk(e, end);
    GainedNothing(live, no);
    NoTerms(p.Rest());
    while p.More() && p.Peek() != ']' && !p.SeeTwo('-', ']')
      invariant p.Valid() && (old(p.error) != OK ==> p.error == old(p.error)) && p.store.ncsets == old(p.store.ncsets)
      invariant p.error == OK ==>
        && old(p.Rest()) == SpellTerms(terms) + p.Rest() && TermsOk(terms, p.Rest())
        && p.store.Live() == Gained(live, no, TermsSet(terms))
      invariant due ==> p.Due(SpellTerms(more), end) && TermsOk(more, end)
      decreases |p.Rest()|
    {
      ghost var rest := p.Rest();
      p.Halted();
      if due { NextTerm(rest, more, dash, f); }
      ghost var t := if more == [] then One('-') else more[0];
      ghost var ts := if more == [] then [] else more[1..];
      ghost var term := PBTerm(p, no, t, SpellTerms(ts) + end);
      MoreTerms(terms, term);
      GainedMore(live, no, TermsSet(terms), TermSet(term));
      if p.error == OK {
        assert rest == SpellTerm(term) + p.Rest();
        Associate(SpellTerms(terms), SpellTerm(term), p.Rest());
        TermsOkMore(terms, term, p.Rest());
      }
      terms := terms + [term];
      more := ts;
    }
    if due { LastTerm(p.Rest(), more, dash, f); }
  }

  lemma NoTerms(s: Text)
    ensures SpellTerms([]) == [] && SpellTerms([]) + s == s && TermsOk([], s)
    ensures TermsSet([]) == {}
  {
  }

  /** While the list has not come to its end a term is due. */
  lemma NextTerm(rest: Text, ts: seq<Term>, dash: bool, f: Text)
    requires rest == SpellTerms(ts) + (SpellEnd(dash) + f) && TermsOk(ts, SpellEnd(dash) + f)
    requires rest[0] != ']' && !(|rest| > 1 && rest[0] == '-' && rest[1] == ']')
    ensures ts != [] && rest == SpellTerm(ts[0]) + (SpellTerms(ts[1..]) + (SpellEnd(dash) + f))
    ensures TermOk(ts[0], SpellTerms(ts[1..]) + (SpellEnd(dash) + f)) && TermsOk(ts[1..], SpellEnd(dash) + f)
  {
    hide SpellTerm, SpellTerms, TermOk, TermsOk;
    if ts == [] {
      NoTerms(SpellEnd(dash) + f);
    } else {
      FirstTerm(ts[0], ts[1..], SpellEnd(dash) + f);
      assert ts == [ts[0]] + ts[1..];
      Associate(SpellTerm(ts[0]), SpellTerms(ts[1..]), SpellEnd(dash) + f);
    }
  }

  lemma TermsBegin(ts: seq<Term>, f: Text)
    requires ts != [] && TermsOk(ts, f)
    ensures var s := SpellTerms(ts) + f; s != [] && BeginsTerm(s[0]) && !(|s| > 1 && s[0] == '[' && s[1] == ':')
  {
    hide SpellTerms, TermsOk;
    FirstTerm(ts[0], ts[1..], f);
    assert ts == [ts[0]] + ts[1..];
    Associate(SpellTerm(ts[0]), SpellTerms(ts[1..]), f);
    TermStart(ts[0], SpellTerms(ts[1..]) + f, SpellTerms(ts) + f);
  }

  /** When it has come to its end, none is. */
  lemma LastTerm(rest: Text, ts: seq<Term>, dash: bool, f: Text)
    requires rest == SpellTerms(ts) + (SpellEnd(dash) + f) && TermsOk(ts, SpellEnd(dash) + f)
    requires rest[0] == ']' || (|rest| > 1 && rest[0] == '-' && rest[1] == ']')
    ensures rest == SpellEnd(dash) + f
  {
    hide SpellTerms, TermsOk;
    NoTerms(SpellEnd(dash) + f);
    if ts != [] { TermsBegin(ts, SpellEnd(dash) + f); }
  }

  /** The - a list may end with, and its closing bracket. */
  method PBEnd(p: Parse, no: nat) returns (dash: bool)
    requires p.Valid() && no < p.store.ncsets
    requires p.Rest() == [] || p.Rest()[0] == ']' || p.SeeTwo('-', ']')
    modifies p`next, p`error, p`pattern, p.store
    ensures p.Valid() && (old(p.error) != OK ==> p.error == old(p.error)) && p.store.ncsets == old(p.store.ncsets)
    ensures p.error == OK <==> old(p.error == OK && p.Rest() != [])
    ensures p.error == OK ==>
      && old(p.Rest()) == SpellEnd(dash) + p.Rest()
      && p.store.Live() == Gained(old(p.store.Live()), no, if dash then {'-'} else {})
  {
    hide SetStore.Valid, SetStore.Live, Parse.Rest;
    GainedNothing(p.store.Live(), no);
    dash := p.Eat('-');
    if dash { p.store.Add(no, '-'); }
    p.Require(p.See(']'), EBRACK);
    if p.error == OK { var bracket := p.GetNext(); }
  }

  /** A bracket list, up to its closing bracket, into the empty set no. */
  method PBList(p: Parse, no: nat, ghost e: Brack, ghost f: Text) returns (ghost b: Brack, invert: bool)
    requires p.Valid() && no < p.store.ncsets && p.store.Live()[no] == {}
    modifies p`next, p`error, p`pattern, p.store
    ensures p.Valid() && (old(p.error) != OK ==> p.error == old(p.error)) && p.store.ncsets == old(p.store.ncsets)
    ensures p.error == OK ==>
      && old(p.Rest()) == SpellBrack(b) + p.Rest() && BrackOk(b, p.Rest()) && b.invert == invert
      && p.store.Live() == old(p.store.Live())[no := Listed(b)]
    ensures old(p.Due(SpellBrack(e), f)) && BrackOk(e, f) ==> p.error == OK && p.Rest() == f
  {
    hide SetStore.Valid, SetStore.Live, TermsSet, SpellBrack, SpellTerms, TermsOk, BrackOk, Parse.Valid, Gained, LeadIs;
    ghost var s, live := p.Rest(), p.store.Live();
    ghost var due := p.Due(SpellBrack(e), f) && BrackOk(e, f);
    ghost var lead;
    invert, lead := PBLead(p, no);
    ghost var s1 := p.Rest();
    if due { LeadDue(s, invert, lead, s1, e, f); BrackTerms(e, f); }
    ghost var terms := PBTerms(p, no, e.terms, e.dash, f);
    ghost var s2 := p.Rest();
    if p.error != OK {
      b := Brack(invert, lead, terms, false);
      return;
    }
    var dash := PBEnd(p, no);
    b := Brack(invert, lead, terms, dash);
    if p.error == OK {
      BrackRead(s, s1, s2, p.Rest(), b);
      if due { SameEnd(e.dash, f, dash, p.Rest()); }
      GainedMore(live, no, LeadSet(lead), TermsSet(terms));
      GainedMore(live, no, LeadSet(lead) + TermsSet(terms), if dash then {'-'} else {});
      GainedFromEmpty(live, no, Listed(b));
    }
  }

  lemma BrackTerms(e: Brack, f: Text)
    requires BrackOk(e, f)
    ensures TermsOk(e.terms, SpellEnd(e.dash) + f)
  {
  }

  lemma SameEnd(dash: bool, f: Text, dash': bool, f': Text)
    requires SpellEnd(dash) + f == SpellEnd(dash') + f'
    ensures f == f'
  {
    var s, s' := SpellEnd(dash) + f, SpellEnd(dash') + f';
    assert s[0] == s'[0];
    assert f == s[|SpellEnd(dash)|..];
    assert f' == s'[|SpellEnd(dash')|..];
  }

  lemma BrackRead(s: Text, s1: Text, s2: Text, s3: Text, b: Brack)
    requires LeadIs(s, b.invert, b.lead, s1)
    requires s1 == SpellTerms(b.terms) + s2 && TermsOk(b.terms, s2)
    requires s2 == SpellEnd(b.dash) + s3
    ensures s == SpellBrack(b) + s3 && BrackOk(b, s3)
  {
    hide SpellTerms, TermsOk, SpellEnd;
    var i := SpellInvert(b.invert);
    Associate(i + b.lead, SpellTerms(b.terms), s2);
    Associate(i + b.lead + SpellTerms(b.terms), SpellEnd(b.dash), s3);
    if b.lead == [] && !b.invert { assert s == s1; }
  }

  lemma GainedFromEmpty(sets: Sets, no: nat, s: set<Ch>)
    requires no < |sets| && sets[no] == {}
    ensures Gained(sets, no, s) == sets[no := s]
  {
    assert {} + s == s;
  }

  /** The list stands for what it does not list; with REG_NEWLINE not for a newline either. */
  method Invert(store: SetStore, no: nat, newline: bool)
    requires store.Valid() && no < store.ncsets
    modifies store
    ensures store.Valid() && store.ncsets == old(store.ncsets)
    ensures store.Live() == old(store.Live())[no := Others(newline, old(store.Live())[no])]
  {
    hide SetStore.Valid, SetStore.Live;
    ghost var live := store.Live();
    var i: int := NC - 1;
    while i >= 0
      invariant -1 <= i < NC && store.Valid() && store.ncsets == old(store.ncsets)
      invariant store.Live() == live[no := store.Live()[no]]
      invariant forall c: Ch :: c in store.Live()[no] <==> if c as int <= i then c in live[no] else c !in live[no]
      decreases i
    {
      var c := i as char;
      var b := store.Has(no, c);
      if b { store.Sub(no, c); } else { store.Add(no, c); }
      i := i - 1;
    }
    if newline { store.Sub(no, '\n'); }
    assert store.Live()[no] == Others(newline, live[no]);
  }

  /** The code for a list that has been read: one character, or a set that may have been there before. */
  method FinishBracket(p: Parse, no: nat, invert: bool, ghost b: Brack) returns (ghost number: nat)
    requires p.Valid() && p.error == OK && p.store.ncsets == no + 1
    requires invert == b.invert && p.store.Live()[no] == Listed(b)
    modifies p`strip, p`ssize, p.store
    ensures p.Valid() && old(p.store.Live())[..no] <= p.store.Live()
    ensures SetIs(p.store.Live(), BrackSet(p.newline, b), number)
    ensures p.strip == old(p.strip) + NodeCode(SetNode(BrackSet(p.newline, b), number))
  {
    hide SetStore.Valid, SetStore.Live, Listed, Others;
    ghost var live := p.store.Live();
    if invert { Invert(p.store, no, p.newline); }
    ghost var s := BrackSet(p.newline, b);
    assert p.store.Live()[no] == s && p.store.Live()[..no] == live[..no];
    var n := p.store.Nch(no);
    number := no;
    if n == 1 {
      OneLeft(s);
      var c := p.store.FirstCh(no);
      Ordinary(p, c);
      p.store.FreeSet(no);
    } else {
      var k := p.store.FreezeSet(no);
      number := k;
      p.Emit(OANYOF, k);
    }
  }

  lemma OneLeft(s: set<Ch>)
    ensures |s| == 1 ==> s == {TheOne(s)}
  {
  }

  /** A bracket expression, after its opening bracket. */
  method PBracket(p: Parse, ghost e: Brack, ghost f: Text) returns (ghost b: Brack, ghost number: nat)
    requires p.Valid()
    modifies p`next, p`error, p`pattern, p`strip, p`ssize, p.store
    ensures p.Valid() && (old(p.error) != OK ==> p.error == old(p.error))
    ensures p.error == OK ==>
      && old(p.Rest()) == SpellBrack(b) + p.Rest() && BrackOk(b, p.Rest())
      && old(p.store.Live()) <= p.store.Live() && SetIs(p.store.Live(), BrackSet(p.newline, b), number)
      && p.strip == old(p.strip) + NodeCode(SetNode(BrackSet(p.newline, b), number))
    ensures old(p.Due(SpellBrack(e), f)) && BrackOk(e, f) ==> p.error == OK && p.Rest() == f
  {
    hide SetStore.Live, Listed, BrackSet, SetNode, SpellBrack, BrackOk;
    b, number := Brack(false, [], [], false), 0;
    var no := p.store.AllocSet();
    if p.More() && p.Peek() == '[' && p.More2() && p.Peek2() == ':' {
      if p.Rest() == SpellBrack(e) + f && BrackOk(e, f) { NotClass(e, f, p.Rest()); }
      p.SetError(OUTSIDE);   // word boundaries, and classes
      return;
    }
    ghost var live := p.store.Live();
    var invert;
    b, invert := PBList(p, no, e, f);
    if p.error != OK { return; }
    assert p.store.Live()[..no] == live[..no];
    number := FinishBracket(p, no, invert, b);
  }

  /** The list of a reading does not begin a class. */
  lemma NotClass(e: Brack, f: Text, s: Text)
    requires s == SpellBrack(e) + f && BrackOk(e, f)
    ensures !(|s| > 1 && s[0] == '[' && s[1] == ':')
  {
    hide SpellTerms, TermsOk, SpellEnd;
    var end := SpellEnd(e.dash) + f;
    BrackAssociate(e, f);
    if !e.invert && e.lead == [] {
      assert s == SpellTerms(e.terms) + end;
      if e.terms == [] {
        NoTerms(end);
        EndBegins(e.dash, f);
      } else {
        TermsBegin(e.terms, end);
      }
    } else {
      assert s[0] == if e.invert then '^' else e.lead[0];
    }
  }

  lemma EndBegins(dash: bool, f: Text)
    ensures var s := SpellEnd(dash) + f; s != [] && s[0] != '['
  {
  }

  /** What . stands for with REG_NEWLINE: the list ^ newline. */
  method NonNewline(p: Parse) returns (ghost number: nat)
    requires p.Valid() && p.error == OK && p.newline
    modifies p`strip, p`ssize, p.store
    ensures p.Valid() && old(p.store.Live()) <= p.store.Live()
    ensures SetIs(p.store.Live(), Others(true, {'\n'}), number)
    ensures p.strip == old(p.strip) + NodeCode(SetNode(Others(true, {'\n'}), number))
  {
    hide SetStore.Live, SetNode, Others;
    var no := p.store.AllocSet();
    ghost var live := p.store.Live();
    p.store.Add(no, '\n');
    ghost var b := Brack(true, [], [One('\n')], false);
    NewlineListed();
    assert p.store.Live()[..no] == live[..no];
    number := FinishBracket(p, no, true, b);
  }

  lemma NewlineListed()
    ensures Listed(Brack(true, [], [One('\n')], false)) == {'\n'} == {} + {'\n'}
  {
    assert [One('\n')][..0] == [];
    assert LeadSet([]) == {};
  }
}
