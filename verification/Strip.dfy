/**
  The strip: the flat program a regular expression is compiled to, and the tree it is laid out from.

  An operator and its operand share one machine word in the C code; here they are the two fields of
  a Sop.  Operands of the branching operators are distances, forwards or backwards, within the strip.
 */
module Strip {

  /** One byte of pattern or text. */
  type Ch = c: char | c as int < 256 witness 'a'

  type Text = seq<Ch>

  /** The members of every bracket set, by set number. */
  type Sets = seq<set<Ch>>

  datatype Op =
    | OEND | OCHAR | OANY | OANYOF
    | OPLUS_ | O_PLUS | OQUEST_ | O_QUEST
    | OLPAREN | ORPAREN
    | OCH_ | OOR1 | OOR2 | O_CH

  datatype Sop = Sop(op: Op, opnd: nat)

  /**
    What one operator, or one operator pair with everything between, stands for.  Parentheses are
    two separate nodes: to the matcher they are no more than marks in a concatenation.
   */
  datatype Node =
    | Lit(c: Ch)
    | Dot
    | Set(no: nat)
    | Open(group: nat)
    | Shut(group: nat)
    | Loop(body: Re)
    | Maybe(body: Re)
    | Choice(first: Re, others: Alts)

  /** A concatenation of nodes. */
  datatype Re = Nil | Cons(head: Node, tail: Re)

  /** The second and later branches of a choice. */
  datatype Alts = Last(branch: Re) | More(branch: Re, others: Alts)

  function NodeLen(n: Node): (len: nat)
    ensures len >= 1
  {
    match n
    case Lit(_) => 1
    case Dot => 1
    case Set(_) => 1
    case Open(_) => 1
    case Shut(_) => 1
    case Loop(b) => Len(b) + 2
    case Maybe(b) => Len(b) + 2
    case Choice(f, o) => Len(f) + 2 + AltsLen(o)
  }

  function Len(re: Re): nat {
    match re
    case Nil => 0
    case Cons(h, t) => NodeLen(h) + Len(t)
  }

  function AltsLen(a: Alts): (len: nat)
    ensures len >= 2
  {
    match a
    case Last(b) => Len(b) + 2
    case More(b, o) => Len(b) + 2 + AltsLen(o)
  }

  lemma Lengths(n: Node)
    ensures n.Loop? || n.Maybe? ==> NodeLen(n) == Len(n.body) + 2
    ensures n.Choice? ==> NodeLen(n) == Len(n.first) + 2 + AltsLen(n.others)
    ensures !n.Loop? && !n.Maybe? && !n.Choice? ==> NodeLen(n) == 1
  {
  }

  lemma AltsLengths(a: Alts)
    ensures a.Last? ==> AltsLen(a) == Len(a.branch) + 2
    ensures a.More? ==> AltsLen(a) == Len(a.branch) + 2 + AltsLen(a.others)
  {
  }

  /** The operators emitted for a node, a concatenation, the later branches of a choice. */
  function NodeCode(n: Node): (code: seq<Sop>)
    ensures |code| == NodeLen(n)
  {
    match n
    case Lit(c) => [Sop(OCHAR, c as int)]
    case Dot => [Sop(OANY, 0)]
    case Set(k) => [Sop(OANYOF, k)]
    case Open(i) => [Sop(OLPAREN, i)]
    case Shut(i) => [Sop(ORPAREN, i)]
    case Loop(b) => [Sop(OPLUS_, Len(b) + 1)] + Code(b) + [Sop(O_PLUS, Len(b) + 1)]
    case Maybe(b) => [Sop(OQUEST_, Len(b) + 1)] + Code(b) + [Sop(O_QUEST, Len(b) + 1)]
    case Choice(f, o) =>
      [Sop(OCH_, Len(f) + 2)] + Code(f) + [Sop(OOR1, Len(f) + 1)] + AltsCode(o)
  }

  function Code(re: Re): (code: seq<Sop>)
    ensures |code| == Len(re)
  {
    match re
    case Nil => []
    case Cons(h, t) => NodeCode(h) + Code(t)
  }

  function AltsCode(a: Alts): (code: seq<Sop>)
    ensures |code| == AltsLen(a)
  {
    match a
    case Last(b) => [Sop(OOR2, Len(b) + 1)] + Code(b) + [Sop(O_CH, Len(b) + 2)]
    case More(b, o) => [Sop(OOR2, Len(b) + 2)] + Code(b) + [Sop(OOR1, Len(b) + 2)] + AltsCode(o)
  }

  lemma CodeOne(n: Node)
    ensures Code(Cons(n, Nil)) == NodeCode(n)
  {
    hide NodeCode, Len, NodeLen;
    assert Code(Nil) == [];
    assert NodeCode(n) + [] == NodeCode(n);
  }

  lemma AltsCodes(a: Alts)
    ensures a.Last? ==> AltsCode(a) == [Sop(OOR2, Len(a.branch) + 1)] + Code(a.branch) + [Sop(O_CH, Len(a.branch) + 2)]
    ensures a.More? ==>
      AltsCode(a) == [Sop(OOR2, Len(a.branch) + 2)] + Code(a.branch) + [Sop(OOR1, Len(a.branch) + 2)] + AltsCode(a.others)
  {
    hide Code, Len, AltsLen;
  }

  lemma NodeCodes(n: Node)
    ensures n.Loop? ==> NodeCode(n) == [Sop(OPLUS_, Len(n.body) + 1)] + Code(n.body) + [Sop(O_PLUS, Len(n.body) + 1)]
    ensures n.Maybe? ==> NodeCode(n) == [Sop(OQUEST_, Len(n.body) + 1)] + Code(n.body) + [Sop(O_QUEST, Len(n.body) + 1)]
    ensures n.Choice? ==>
      NodeCode(n) == [Sop(OCH_, Len(n.first) + 2)] + Code(n.first) + [Sop(OOR1, Len(n.first) + 1)] + AltsCode(n.others)
  {
    hide Code, Len, AltsCode, NodeLen;
  }

  /** The operators of re occupy the strip from position lo on. */
  ghost predicate At(strip: seq<Sop>, lo: nat, re: Re)
    decreases re
  {
    match re
    case Nil => lo <= |strip|
    case Cons(h, t) => AtNode(strip, lo, h) && At(strip, lo + NodeLen(h), t)
  }

  ghost predicate AtNode(strip: seq<Sop>, lo: nat, n: Node)
    decreases n
  {
    && lo + NodeLen(n) <= |strip|
    && match n
       case Lit(c) => strip[lo] == Sop(OCHAR, c as int)
       case Dot => strip[lo].op == OANY
       case Set(k) => strip[lo] == Sop(OANYOF, k)
       case Open(i) => strip[lo] == Sop(OLPAREN, i)
       case Shut(i) => strip[lo] == Sop(ORPAREN, i)
       case Loop(b) =>
         && strip[lo] == Sop(OPLUS_, Len(b) + 1)
         && At(strip, lo + 1, b)
         && strip[lo + 1 + Len(b)] == Sop(O_PLUS, Len(b) + 1)
       case Maybe(b) =>
         && strip[lo] == Sop(OQUEST_, Len(b) + 1)
         && At(strip, lo + 1, b)
         && strip[lo + 1 + Len(b)].op == O_QUEST
       case Choice(f, o) =>
         && strip[lo] == Sop(OCH_, Len(f) + 2)
         && At(strip, lo + 1, f)
         && strip[lo + 1 + Len(f)].op == OOR1
         && AtAlts(strip, lo + 2 + Len(f), o)
  }

  ghost predicate AtAlts(strip: seq<Sop>, lo: nat, a: Alts)
    decreases a
  {
    && lo + AltsLen(a) <= |strip|
    && match a
       case Last(b) =>
         && strip[lo] == Sop(OOR2, Len(b) + 1)
         && At(strip, lo + 1, b)
         && strip[lo + 1 + Len(b)].op == O_CH
       case More(b, o) =>
         && strip[lo] == Sop(OOR2, Len(b) + 2)
         && At(strip, lo + 1, b)
         && strip[lo + 1 + Len(b)].op == OOR1
         && AtAlts(strip, lo + 2 + Len(b), o)
  }

  lemma {:induction false} AtWithin(strip: seq<Sop>, lo: nat, re: Re)
    requires At(strip, lo, re)
    ensures lo + Len(re) <= |strip|
    decreases re
  {
    match re
    case Nil =>
    case Cons(h, t) => AtWithin(strip, lo + NodeLen(h), t);
  }

  /** A strip that contains the code of re at lo has re at lo. */
  lemma {:induction false} CodeIsAt(strip: seq<Sop>, lo: nat, re: Re)
    requires lo + Len(re) <= |strip|
    requires strip[lo..lo + Len(re)] == Code(re)
    ensures At(strip, lo, re)
    decreases re
  {
    hide AtNode, NodeLen, NodeCode;
    match re
    case Nil =>
    case Cons(h, t) =>
      var mid := lo + NodeLen(h);
      Piece(strip, lo, NodeCode(h), Code(t));
      NodeCodeIsAt(strip, lo, h);
      CodeIsAt(strip, mid, t);
  }

  lemma {:induction false} NodeCodeIsAt(strip: seq<Sop>, lo: nat, n: Node)
    requires lo + NodeLen(n) <= |strip|
    requires strip[lo..lo + NodeLen(n)] == NodeCode(n)
    ensures AtNode(strip, lo, n)
    decreases n
  {
    hide Len, NodeLen, AltsLen, Code, NodeCode, AltsCode, At, AtAlts;
    Lengths(n);
    NodeCodes(n);
    if n.Loop? || n.Maybe? {
      var b := n.body;
      Framed(strip, lo, NodeCode(n)[0], Code(b), NodeCode(n)[1 + Len(b)], []);
      CodeIsAt(strip, lo + 1, b);
    } else if n.Choice? {
      var f, o := n.first, n.others;
      Framed(strip, lo, NodeCode(n)[0], Code(f), Sop(OOR1, Len(f) + 1), AltsCode(o));
      CodeIsAt(strip, lo + 1, f);
      AltsCodeIsAt(strip, lo + 2 + Len(f), o);
    } else {
      assert strip[lo] == strip[lo..lo + 1][0];
      PlainCode(n);
    }
  }

  /** The operator of a node that is one operator. */
  lemma PlainCode(n: Node)
    requires !n.Loop? && !n.Maybe? && !n.Choice?
    ensures |NodeCode(n)| == 1
    ensures n.Lit? ==> NodeCode(n)[0] == Sop(OCHAR, n.c as int)
    ensures n.Dot? ==> NodeCode(n)[0] == Sop(OANY, 0)
    ensures n.Set? ==> NodeCode(n)[0] == Sop(OANYOF, n.no)
    ensures n.Open? ==> NodeCode(n)[0] == Sop(OLPAREN, n.group)
    ensures n.Shut? ==> NodeCode(n)[0] == Sop(ORPAREN, n.group)
  {
  }

  lemma {:induction false} AltsCodeIsAt(strip: seq<Sop>, lo: nat, a: Alts)
    requires lo + AltsLen(a) <= |strip|
    requires strip[lo..lo + AltsLen(a)] == AltsCode(a)
    ensures AtAlts(strip, lo, a)
    decreases a
  {
    hide Len, NodeLen, AltsLen, Code, NodeCode, At, AtNode;
    AltsLengths(a);
    match a
    case Last(b) =>
      Framed(strip, lo, AltsCode(a)[0], Code(b), Sop(O_CH, Len(b) + 2), []);
      CodeIsAt(strip, lo + 1, b);
    case More(b, o) =>
      Framed(strip, lo, AltsCode(a)[0], Code(b), Sop(OOR1, Len(b) + 2), AltsCode(o));
      CodeIsAt(strip, lo + 1, b);
      AltsCodeIsAt(strip, lo + 2 + Len(b), o);
  }

  lemma Framed(strip: seq<Sop>, lo: nat, before: Sop, body: seq<Sop>, after: Sop, more: seq<Sop>)
    requires lo + 2 + |body| + |more| <= |strip|
    requires strip[lo..lo + 2 + |body| + |more|] == [before] + body + [after] + more
    ensures strip[lo] == before
    ensures strip[lo + 1..lo + 1 + |body|] == body
    ensures strip[lo + 1 + |body|] == after
    ensures strip[lo + 2 + |body|..lo + 2 + |body| + |more|] == more
  {
    var s := strip[lo..lo + 2 + |body| + |more|];
    assert strip[lo] == s[0];
    assert s == [before] + (body + ([after] + more));
    assert strip[lo + 1..lo + 1 + |body|] == s[1..][..|body|] == body;
    assert strip[lo + 1 + |body|] == s[1 + |body|];
    assert strip[lo + 2 + |body|..lo + 2 + |body| + |more|] == s[2 + |body|..] == more;
  }

  lemma Piece(strip: seq<Sop>, lo: nat, a: seq<Sop>, b: seq<Sop>)
    requires lo + |a| + |b| <= |strip|
    requires strip[lo..lo + |a| + |b|] == a + b
    ensures strip[lo..lo + |a|] == a
    ensures strip[lo + |a|..lo + |a| + |b|] == b
  {
    var s := strip[lo..lo + |a| + |b|];
    assert a == s[..|a|] == strip[lo..lo + |a|];
    assert b == s[|a|..] == strip[lo + |a|..lo + |a| + |b|];
  }

  function Append(a: Re, b: Re): (r: Re)
    ensures Len(r) == Len(a) + Len(b)
  {
    match a
    case Nil => b
    case Cons(h, t) => Cons(h, Append(t, b))
  }

  lemma {:induction false} AppendCode(a: Re, b: Re)
    ensures Code(Append(a, b)) == Code(a) + Code(b)
  {
    hide Code, NodeCode;
    CodeCons(Dot, Nil);
    match a
    case Nil => assert [] + Code(b) == Code(b);
    case Cons(h, t) =>
      AppendCode(t, b);
      CodeCons(h, t);
      CodeCons(h, Append(t, b));
      CodeAssociates(NodeCode(h), Code(t), Code(b));
  }

  lemma CodeCons(h: Node, t: Re)
    ensures Code(Nil) == [] && Code(Cons(h, t)) == NodeCode(h) + Code(t)
  {
    hide NodeCode;
  }

  lemma CodeAssociates(a: seq<Sop>, b: seq<Sop>, c: seq<Sop>)
    ensures a + (b + c) == a + b + c
  {
  }

  lemma ConsAt(strip: seq<Sop>, lo: nat, h: Node, t: Re)
    ensures At(strip, lo, Cons(h, t)) <==> AtNode(strip, lo, h) && At(strip, lo + NodeLen(h), t)
    ensures Len(Cons(h, t)) == NodeLen(h) + Len(t)
    ensures At(strip, lo, Nil) <==> lo <= |strip|
    ensures Len(Nil) == 0
  {
    hide AtNode, NodeLen;
  }

  lemma {:induction false} AppendAssoc(a: Re, b: Re, c: Re)
    ensures Append(Append(a, b), c) == Append(a, Append(b, c))
  {
    match a
    case Nil =>
    case Cons(_, t) => AppendAssoc(t, b, c);
  }

  lemma {:induction false} AppendNil(a: Re)
    ensures Append(a, Nil) == a
  {
    match a
    case Nil =>
    case Cons(_, t) => AppendNil(t);
  }
}
