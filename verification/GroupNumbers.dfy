/**
  Groups numbered in the order of their left parentheses: a group's number occurs nowhere outside it, and
  copying an operand for a repetition keeps every pair of parentheses together.
 */
module GroupNumbers {
  import opened Strip
  import opened Pattern
  import opened Spelling
  import opened Dissection

  lemma {:induction false} OccursAppend(i: nat, a: Re, b: Re)
    ensures Occurs(i, Append(a, b)) <==> Occurs(i, a) || Occurs(i, b)
    decreases a
  {
    hide OccursNode;
    if a.Cons? { OccursAppend(i, a.tail, b); }
  }

  lemma {:induction false} PairedAppend(i: nat, a: Re, b: Re, open: bool)
    requires Paired(i, a, open) && Paired(i, b, false)
    ensures Paired(i, Append(a, b), open)
    decreases a
  {
    hide OccursNode, PairedNode;
    if a.Cons? {
      var h := a.head;
      PairedAppend(i, a.tail, b, if h == Open(i) then true else if h == Shut(i) then false else open);
    }
  }

  lemma {:induction false} PairedPast(i: nat, a: Re, b: Re, open: bool)
    requires !Occurs(i, a) && Paired(i, b, open)
    ensures Paired(i, Append(a, b), open)
    decreases a
  {
    hide PairedNode;
    if a.Cons? { PairedPast(i, a.tail, b, open); }
  }

  /** What one node says of group i, when it is a pair of operators around x. */
  lemma AroundOne(i: nat, x: Re)
    ensures Occurs(i, Cons(Loop(x), Nil)) <==> Occurs(i, x)
    ensures Occurs(i, Cons(Maybe(x), Nil)) <==> Occurs(i, x)
    ensures Paired(i, x, false) ==> Paired(i, Cons(Loop(x), Nil), false)
    ensures Paired(i, x, false) ==> Paired(i, Cons(Maybe(x), Nil), false)
  {
    hide Occurs, Paired;
    NothingOccurs(i);
    OneNode(i, Loop(x));
    OneNode(i, Maybe(x));
  }

  lemma NothingOccurs(i: nat)
    ensures !Occurs(i, Nil) && Paired(i, Nil, false)
  {
  }

  lemma OneNode(i: nat, n: Node)
    requires n != Open(i) && n != Shut(i)
    ensures Occurs(i, Cons(n, Nil)) <==> OccursNode(i, n)
    ensures PairedNode(i, n) ==> Paired(i, Cons(n, Nil), false)
  {
    hide OccursNode, PairedNode;
  }

  lemma AroundOptional(i: nat, x: Re, y: Re)
    ensures Occurs(i, Cons(Optional(x), y)) <==> Occurs(i, x) || Occurs(i, y)
    ensures Paired(i, x, false) && Paired(i, y, false) ==> Paired(i, Cons(Optional(x), y), false)
  {
    hide Occurs, Paired;
    NothingOccurs(i);
    OptionalNode(i, x);
    OneMore(i, Optional(x), y);
  }

  lemma OptionalNode(i: nat, x: Re)
    ensures OccursNode(i, Optional(x)) <==> Occurs(i, x)
    ensures Paired(i, x, false) ==> PairedNode(i, Optional(x))
  {
    hide Occurs, Paired;
    NothingOccurs(i);
    assert OccursAlts(i, Last(Nil)) <==> Occurs(i, Nil);
    assert PairedAlts(i, Last(Nil)) <==> Paired(i, Nil, false);
  }

  lemma OneMore(i: nat, n: Node, y: Re)
    requires n != Open(i) && n != Shut(i)
    ensures Occurs(i, Cons(n, y)) <==> OccursNode(i, n) || Occurs(i, y)
    ensures PairedNode(i, n) && Paired(i, y, false) ==> Paired(i, Cons(n, y), false)
  {
    hide OccursNode, PairedNode;
  }

  lemma {:induction false} RepeatGroups(i: nat, x: Re, from: nat, to: nat)
    ensures Occurs(i, RepeatRe(x, from, to)) ==> Occurs(i, x)
    ensures Paired(i, x, false) ==> Paired(i, RepeatRe(x, from, to), false)
    decreases if from == 0 then 1 else 0, from + to
  {
    hide Occurs, Paired, Optional;
    NothingOccurs(i);
    if to == 0 {
    } else if from == 0 {
      RepeatGroups(i, x, 1, to);
      AroundOptional(i, RepeatRe(x, 1, to), Nil);
    } else if from == 1 {
      AroundOne(i, x);
      if to != 1 && to != INFINITY {
        RepeatGroups(i, x, 1, to - 1);
        AroundOptional(i, x, RepeatRe(x, 1, to - 1));
      }
    } else {
      var y := RepeatRe(x, from - 1, if to == INFINITY then to else to - 1);
      RepeatGroups(i, x, from - 1, if to == INFINITY then to else to - 1);
      OccursAppend(i, x, y);
      if Paired(i, x, false) { PairedAppend(i, x, y, false); }
    }
  }

  lemma RepGroups(i: nat, x: Re, r: Rep)
    ensures Occurs(i, RepRe(x, r)) ==> Occurs(i, x)
    ensures Paired(i, x, false) ==> Paired(i, RepRe(x, r), false)
  {
    hide Occurs, Paired, Optional, RepeatRe, Number;
    NothingOccurs(i);
    AroundOne(i, x);
    AroundOne(i, Cons(Loop(x), Nil));
    AroundOptional(i, x, Nil);
    if r.Bound? { RepeatGroups(i, x, From(r), To(r)); }
  }

  lemma {:induction false} AtomNumbers(newline: bool, i: nat, a: Atom, n: nat)
    requires OrderedAtom(a, n)
    ensures Occurs(i, AtomRe(newline, a)) ==> n < i <= n + AtomGroups(a)
    ensures Paired(i, AtomRe(newline, a), false)
    decreases a
  {
    hide Occurs, Paired, TreeRe, BrackSet, Others, Groups, Ordered;
    NothingOccurs(i);
    match a
    case Group(no, t) =>
      TreeNumbers(newline, i, t, n + 1);
      var x := TreeRe(newline, t);
      OccursAppend(i, x, Cons(Shut(no), Nil));
      ShutsAt(i, no);
      if i == no {
        PairedPast(i, x, Cons(Shut(no), Nil), true);
      } else {
        PairedAppend(i, x, Cons(Shut(no), Nil), false);
      }
      OpensWith(i, no, Append(x, Cons(Shut(no), Nil)));
    case EmptyGroup(no) =>
      ShutsAt(i, no);
      OpensWith(i, no, Cons(Shut(no), Nil));
    case _ => PlainNode(i, AtomRe(newline, a).head);
  }

  lemma PlainNode(i: nat, h: Node)
    requires h.Lit? || h.Dot? || h.Set?
    ensures !Occurs(i, Cons(h, Nil)) && Paired(i, Cons(h, Nil), false)
  {
    hide Occurs, Paired;
    NothingOccurs(i);
    OneNode(i, h);
  }

  lemma ShutsAt(i: nat, no: nat)
    ensures Occurs(i, Cons(Shut(no), Nil)) <==> i == no
    ensures Paired(i, Cons(Shut(no), Nil), i == no)
  {
    assert OccursNode(i, Shut(no)) <==> i == no;
    NothingOccurs(i);
  }

  lemma OpensWith(i: nat, no: nat, y: Re)
    ensures Occurs(i, Cons(Open(no), y)) <==> i == no || Occurs(i, y)
    ensures Paired(i, y, i == no) ==> Paired(i, Cons(Open(no), y), false)
  {
    assert OccursNode(i, Open(no)) <==> i == no;
  }

  lemma {:induction false} BranchNumbers(newline: bool, i: nat, b: Branch, n: nat)
    requires OrderedBranch(b, n)
    ensures Occurs(i, BranchRe(newline, b)) ==> n < i <= n + BranchGroups(b)
    ensures Paired(i, BranchRe(newline, b), false)
    decreases b
  {
    hide Occurs, Paired, AtomRe, RepRe, AtomGroups, OrderedAtom;
    NothingOccurs(i);
    match b
    case Done =>
    case Then(p, rest) =>
      AtomNumbers(newline, i, p.atom, n);
      RepGroups(i, AtomRe(newline, p.atom), p.rep);
      BranchNumbers(newline, i, rest, n + AtomGroups(p.atom));
      OccursAppend(i, PieceRe(newline, p), BranchRe(newline, rest));
      PairedAppend(i, PieceRe(newline, p), BranchRe(newline, rest), false);
  }

  /** Each group's number is its own, and its parentheses stay in pairs. */
  lemma {:induction false} TreeNumbers(newline: bool, i: nat, t: Tree, n: nat)
    requires Ordered(t, n)
    ensures Occurs(i, TreeRe(newline, t)) ==> n < i <= n + Groups(t)
    ensures Paired(i, TreeRe(newline, t), false)
    decreases t, 1
  {
    hide Occurs, Paired, BranchRe, BranchGroups, OrderedBranch;
    BranchNumbers(newline, i, t.branch, n);
    if t.Or? {
      AltsNumbers(newline, i, t.more, n + BranchGroups(t.branch));
      var c := Choice(BranchRe(newline, t.branch), TreeAlts(newline, t.more));
      ChoiceNode(i, c);
      OneNode(i, c);
    }
  }

  lemma ChoiceNode(i: nat, c: Node)
    requires c.Choice?
    ensures OccursNode(i, c) <==> Occurs(i, c.first) || OccursAlts(i, c.others)
    ensures PairedNode(i, c) <==> Paired(i, c.first, false) && PairedAlts(i, c.others)
  {
    hide Occurs, OccursAlts, Paired, PairedAlts;
  }

  lemma {:induction false} AltsNumbers(newline: bool, i: nat, t: Tree, n: nat)
    requires Ordered(t, n)
    ensures OccursAlts(i, TreeAlts(newline, t)) ==> n < i <= n + Groups(t)
    ensures PairedAlts(i, TreeAlts(newline, t))
    decreases t, 0
  {
    hide Occurs, Paired, BranchRe, BranchGroups, OrderedBranch;
    BranchNumbers(newline, i, t.branch, n);
    if t.Or? { AltsNumbers(newline, i, t.more, n + BranchGroups(t.branch)); }
  }
}
