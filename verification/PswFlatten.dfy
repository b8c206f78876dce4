/**
  Arrays that hold executable names cannot be laid out: they become a name [, their tokens, and a name ].
  What that does to the token tree; PswSplice does it in memory.
 */
module PswFlatten {
  import opened PswLayout

  /** Nothing in the body, or in arrays within it, is executed. */
  predicate AllLiterals(b: Body)
    decreases b
  {
    b.Link? ==>
      && !b.token.item.Name? && (b.token.item.Array? ==> AllLiterals(b.token.item.body))
      && AllLiterals(b.next)
  }

  function Opener(id: nat): Token {
    Token(id, Name("["))
  }

  function Closer(id: nat): Token {
    Token(id, Name("]"))
  }

  function Append(a: Body, b: Body): Body {
    if a.End? then b else Link(a.token, Append(a.next, b))
  }

  /**
    A body with the arrays that are not all literals taken apart.  The closing bracket is held by a new node,
    numbered by place, and the opening one by the array's.
   */
  function Flattened(place: nat -> nat, b: Body): Body
    decreases b
  {
    if b.End? then End else
      var t := b.token;
      if t.item.Array? && !AllLiterals(t.item.body) then
        Link(Opener(t.id), Append(Flattened(place, t.item.body), Link(Closer(place(t.id)), Flattened(place, b.next))))
      else if t.item.Array? then Link(Token(t.id, Array(Flattened(place, t.item.body))), Flattened(place, b.next))
      else if t.item.Proc? then Link(Token(t.id, Proc(Flattened(place, t.item.body))), Flattened(place, b.next))
      else Link(t, Flattened(place, b.next))
  }

  /** Tokens spliced into a list are flattened as they would be on their own. */
  lemma {:induction false} FlattenAppend(place: nat -> nat, a: Body, b: Body)
    ensures Flattened(place, Append(a, b)) == Append(Flattened(place, a), Flattened(place, b))
    decreases a
  {
    if a.Link? {
      FlattenAppend(place, a.next, b);
      if a.token.item.Array? && !AllLiterals(a.token.item.body) {
        AppendAssociates(Flattened(place, a.token.item.body),
          Link(Closer(place(a.token.id)), Flattened(place, a.next)), Flattened(place, b));
      }
    }
  }

  lemma {:induction false} AppendAssociates(a: Body, b: Body, c: Body)
    ensures Append(a, Append(b, c)) == Append(Append(a, b), c)
    decreases a
  {
    if a.Link? { AppendAssociates(a.next, b, c); }
  }

  // Every array left can be laid out

  predicate OnlyLiteralArrays(b: Body)
    decreases b
  {
    b.Link? ==>
      && (b.token.item.Array? ==> AllLiterals(b.token.item.body))
      && (Composite(b.token) ==> OnlyLiteralArrays(b.token.item.body))
      && OnlyLiteralArrays(b.next)
  }

  lemma {:induction false} StillLiterals(place: nat -> nat, b: Body)
    requires AllLiterals(b)
    ensures AllLiterals(Flattened(place, b))
    decreases b
  {
    if b.Link? {
      if b.token.item.Array? { StillLiterals(place, b.token.item.body); }
      StillLiterals(place, b.next);
    }
  }

  lemma {:induction false} AppendLiteral(a: Body, b: Body)
    requires OnlyLiteralArrays(a) && OnlyLiteralArrays(b)
    ensures OnlyLiteralArrays(Append(a, b))
    decreases a
  {
    hide AllLiterals;
    if a.Link? { AppendLiteral(a.next, b); }
  }

  lemma {:induction false} FlattenedLiteral(place: nat -> nat, b: Body)
    ensures OnlyLiteralArrays(Flattened(place, b))
    decreases b
  {
    hide AllLiterals;
    if b.Link? {
      var t := b.token;
      FlattenedLiteral(place, b.next);
      if Composite(t) { FlattenedLiteral(place, t.item.body); }
      if t.item.Array? && !AllLiterals(t.item.body) {
        AppendLiteral(Flattened(place, t.item.body), Link(Closer(place(t.id)), Flattened(place, b.next)));
      } else if t.item.Array? {
        StillLiterals(place, t.item.body);
      }
    }
  }

  /** Where every array can be laid out nothing is changed. */
  lemma {:induction false} NothingToFlatten(place: nat -> nat, b: Body)
    requires OnlyLiteralArrays(b)
    ensures Flattened(place, b) == b
    decreases b
  {
    hide AllLiterals;
    if b.Link? {
      if Composite(b.token) { NothingToFlatten(place, b.token.item.body); }
      NothingToFlatten(place, b.next);
    }
  }

  /** After flattening every array left, at any depth, holds literals only, and flattening again changes nothing. */
  lemma Flattens(place: nat -> nat, place': nat -> nat, b: Body)
    ensures OnlyLiteralArrays(Flattened(place, b))
    ensures Flattened(place', Flattened(place, b)) == Flattened(place, b)
  {
    hide OnlyLiteralArrays, Flattened;
    FlattenedLiteral(place, b);
    NothingToFlatten(place', Flattened(place, b));
  }

  // Arrays within procedures

  predicate NoArrays(b: Body)
    decreases b
  {
    b.Link? ==> !b.token.item.Array? && (b.token.item.Proc? ==> NoArrays(b.token.item.body)) && NoArrays(b.next)
  }

  /** Something is executed in every array, at any depth. */
  predicate AllExecute(b: Body)
    decreases b
  {
    b.Link? ==>
      && (b.token.item.Array? ==> !AllLiterals(b.token.item.body))
      && (Composite(b.token) ==> AllExecute(b.token.item.body))
      && AllExecute(b.next)
  }

  /** No procedure, at any depth, has an array in it. */
  predicate ProcsWithoutArrays(b: Body)
    decreases b
  {
    b.Link? ==>
      && (b.token.item.Proc? ==> NoArrays(b.token.item.body))
      && (b.token.item.Array? ==> ProcsWithoutArrays(b.token.item.body))
      && ProcsWithoutArrays(b.next)
  }

  predicate ProcArraysExecute(b: Body)
    decreases b
  {
    b.Link? ==>
      && (b.token.item.Proc? ==> AllExecute(b.token.item.body))
      && (b.token.item.Array? ==> ProcArraysExecute(b.token.item.body))
      && ProcArraysExecute(b.next)
  }

  lemma {:induction false} AppendNoArrays(a: Body, b: Body)
    ensures NoArrays(Append(a, b)) <==> NoArrays(a) && NoArrays(b)
    ensures ProcsWithoutArrays(Append(a, b)) <==> ProcsWithoutArrays(a) && ProcsWithoutArrays(b)
    decreases a
  {
    if a.Link? { AppendNoArrays(a.next, b); }
  }

  /** All arrays are taken apart just when something is executed in each. */
  lemma {:induction false} TakenApartIff(place: nat -> nat, b: Body)
    ensures NoArrays(Flattened(place, b)) <==> AllExecute(b)
    decreases b
  {
    hide AllLiterals;
    if b.Link? {
      var t := b.token;
      TakenApartIff(place, b.next);
      if Composite(t) {
        TakenApartIff(place, t.item.body);
        AppendNoArrays(Flattened(place, t.item.body), Link(Closer(place(t.id)), Flattened(place, b.next)));
      }
    }
  }

  /** So no arrays are left in procedures just when something is executed in each that is in one. */
  lemma {:induction false} ProcsFlatIff(place: nat -> nat, b: Body)
    ensures ProcsWithoutArrays(Flattened(place, b)) <==> ProcArraysExecute(b)
    decreases b
  {
    hide AllLiterals, NoArrays, AllExecute;
    if b.Link? {
      var t := b.token;
      ProcsFlatIff(place, b.next);
      if t.item.Proc? { TakenApartIff(place, t.item.body); }
      if t.item.Array? {
        ProcsFlatIff(place, t.item.body);
        AppendNoArrays(Flattened(place, t.item.body), Link(Closer(place(t.id)), Flattened(place, b.next)));
      }
    }
  }

  function One(id: nat, item: Item): Body {
    Link(Token(id, item), End)
  }

  /** { [1] } stays as it is. */
  lemma LiteralArrayStays(place: nat -> nat)
    ensures var b := One(0, Proc(One(1, Array(One(2, Int(1)))))); Flattened(place, b) == b && !ProcsWithoutArrays(b)
  {
    var one := One(2, Int(1));
    assert AllLiterals(one) && Flattened(place, one) == one;
    var a := One(1, Array(one));
    assert Flattened(place, a) == a && !NoArrays(a);
  }

  // Nothing is lost

  /** The scanner makes no names of brackets. */
  predicate NoBrackets(b: Body)
    decreases b
  {
    b.Link? ==>
      && !(b.token.item.Name? && (b.token.item.s == "[" || b.token.item.s == "]"))
      && (Composite(b.token) ==> NoBrackets(b.token.item.body))
      && NoBrackets(b.next)
  }

  /** Arrays put together again from brackets: the tokens up to a closing bracket or the end, and what is behind it. */
  function Regroup(b: Body): (r: (Body, Body))
    ensures Count(r.1) <= Count(b)
    decreases Count(b)
  {
    if b.End? then (End, End)
    else if b.token.item == Name("]") then (End, b.next)
    else if b.token.item == Name("[") then
      var (inner, r1) := Regroup(b.next);
      var (after, r2) := Regroup(r1);
      (Link(Token(b.token.id, Array(inner)), after), r2)
    else
      var (after, r) := Regroup(b.next);
      (Link(if b.token.item.Array? then Token(b.token.id, Array(Regroup(b.token.item.body).0))
            else if b.token.item.Proc? then Token(b.token.id, Proc(Regroup(b.token.item.body).0))
            else b.token, after), r)
  }

  /** Where a body ends: with nothing, or with a closing bracket. */
  predicate Stops(tail: Body) {
    tail.Link? ==> tail.token.item == Name("]")
  }

  function Behind(tail: Body): Body {
    if tail.End? then End else tail.next
  }

  lemma {:induction false} RegroupsTo(place: nat -> nat, b: Body, tail: Body)
    requires NoBrackets(b) && Stops(tail)
    ensures Regroup(Append(Flattened(place, b), tail)) == (b, Behind(tail))
    decreases b
  {
    hide AllLiterals;
    if b.Link? {
      var t := b.token;
      if t.item.Array? && !AllLiterals(t.item.body) {
        var closer := Closer(place(t.id));
        var after := Append(Flattened(place, b.next), tail);
        AppendAssociates(Flattened(place, t.item.body), Link(closer, Flattened(place, b.next)), tail);
        RegroupsTo(place, t.item.body, Link(closer, after));
        RegroupsTo(place, b.next, tail);
      } else {
        if Composite(t) {
          RegroupsTo(place, t.item.body, End);
          AppendEnd(Flattened(place, t.item.body));
        }
        RegroupsTo(place, b.next, tail);
      }
    }
  }

  lemma {:induction false} AppendEnd(b: Body)
    ensures Append(b, End) == b
    decreases b
  {
    if b.Link? { AppendEnd(b.next); }
  }

  /** Matching the brackets gives back every token in its order and every array as it was. */
  lemma Regroups(place: nat -> nat, b: Body)
    requires NoBrackets(b)
    ensures Regroup(Flattened(place, b)) == (b, End)
  {
    hide Regroup, Flattened;
    RegroupsTo(place, b, End);
    AppendEnd(Flattened(place, b));
  }
}
