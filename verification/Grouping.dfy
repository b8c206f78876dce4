/**
  How far the parser of #if expressions agrees with C: what it makes of expressions written with the
  parentheses C needs, and of names that begin like the operator "defined".
 */
module Grouping {
  import opened IfParser

  // Expressions as they are written in C, whose operators of one level group to the left

  function CRaw(sp: string, e: Expr): string
    decreases e, 0
  {
    match e
    case Prefix(c, a) => sp + ([c] + CPrint(sp, TOP, a))
    case Binary(op, l, r) => CPrint(sp, LevelOf(op), l) + (sp + (Spelled(op) + CPrint(sp, LevelOf(op) + 1, r)))
    case Cond(a, b, c) => CPrint(sp, 1, a) + (sp + ("?" + (CPrint(sp, 0, b) + (sp + (":" + CPrint(sp, 0, c))))))
    case _ => Raw(sp, e)
  }

  /**
    An expression where one of level k is called for, in C.  The parser takes each operator for itself whatever
    stands next to it; C's scanner does so only where sp is not empty, and would read the -- of x--y as one.
   */
  function CPrint(sp: string, k: nat, e: Expr): string
    decreases e, 1
  {
    if LevelOfExpr(e) >= k then CRaw(sp, e) else sp + ("(" + (CRaw(sp, e) + (sp + ")")))
  }

  /** The expression with every chain of operators of one level grouped to the right. */
  function Regrouped(e: Expr): Expr
    decreases e, 0
  {
    match e
    case Prefix(c, a) => Prefix(c, Regrouped(a))
    case Binary(op, l, r) => Rotate(l, op, Regrouped(r))
    case Cond(a, b, c) => Cond(Regrouped(a), Regrouped(b), Regrouped(c))
    case _ => e
  }

  /** The left operand is itself an operation of the same level. */
  predicate Chained(op: Op, l: Expr) {
    l.Binary? && LevelOf(l.op) == LevelOf(op)
  }

  /** The chain l op x, where x is grouped already. */
  function Rotate(l: Expr, op: Op, x: Expr): Expr
    decreases l, 1
  {
    if Chained(op, l) then Rotate(l.l, l.op, Binary(op, Regrouped(l.r), x)) else Binary(op, Regrouped(l), x)
  }

  // What the parser makes of them

  lemma {:induction false} CPrintBegins(sp: string, k: nat, env: Env, e: Expr, rest: string)
    requires AllSpaces(sp) && Proper(env, e)
    ensures var s := CPrint(sp, k, e) + rest; s != [] && BeginsOperand(s[0])
    decreases e, 1
  {
    hide IsSpace, IsNameChar;
    if LevelOfExpr(e) >= k {
      CRawBegins(sp, env, e, rest);
    } else {
      FirstOf(sp, '(', CRaw(sp, e) + (sp + ")"), rest);
    }
  }

  lemma {:induction false} CRawBegins(sp: string, env: Env, e: Expr, rest: string)
    requires AllSpaces(sp) && Proper(env, e)
    ensures var s := CRaw(sp, e) + rest; s != [] && BeginsOperand(s[0])
    decreases e, 0
  {
    hide CPrint, AllSpaces, Raw;
    match e
    case Prefix(c, a) => FirstOf(sp, c, CPrint(sp, TOP, a), rest);
    case Binary(op, l, r) =>
      var u := sp + (Spelled(op) + CPrint(sp, LevelOf(op) + 1, r));
      CPrintBegins(sp, LevelOf(op), env, l, u + rest);
      Associate(CPrint(sp, LevelOf(op), l), u, rest);
    case Cond(a, b, c) =>
      var u := sp + ("?" + (CPrint(sp, 0, b) + (sp + (":" + CPrint(sp, 0, c)))));
      CPrintBegins(sp, 1, env, a, u + rest);
      Associate(CPrint(sp, 1, a), u, rest);
    case _ => RawBegins(sp, env, e, rest);
  }

  /** At every level, what is read is the value of the regrouped expression. */
  lemma {:induction false} CRoundTrip(env: Env, sp: string, k: nat, e: Expr, rest: string)
    requires k <= TOP && AllSpaces(sp) && Proper(env, e) && Follows(k, rest)
    ensures Parsed(env, k, CPrint(sp, k, e) + rest, rest, Eval(env, Regrouped(e)))
    decreases e, 3
  {
    hide Skip, LookFor, ParseLevel, ParseValue, CRaw, Eval, Follows, AllSpaces, Parsed, Regrouped;
    var l, v := LevelOfExpr(e), Eval(env, Regrouped(e));
    if l >= k {
      FollowsMore(k, l, rest);
      CRawRoundTrip(env, sp, e, rest);
      Lift(env, k, l, CRaw(sp, e) + rest, rest, v);
    } else {
      CInParentheses(env, sp, e, rest);
      FollowsMore(k, TOP, rest);
      TopParsed(env, CPrint(sp, k, e) + rest, rest, rest, v);
      Lift(env, k, TOP, CPrint(sp, k, e) + rest, rest, v);
    }
  }

  lemma {:induction false} CInParentheses(env: Env, sp: string, e: Expr, rest: string)
    requires AllSpaces(sp) && Proper(env, e) && LevelOfExpr(e) < TOP
    ensures ParseValue(env, sp + ("(" + (CRaw(sp, e) + (sp + ")"))) + rest) == Ok(rest, Eval(env, Regrouped(e)))
    decreases e, 2
  {
    hide Skip, LookFor, ParseLevel, CRaw, Eval, Follows, AllSpaces, ParseDefined, Number, NameLen, Regrouped;
    var end := sp + ([')'] + rest);
    var s, v := CRaw(sp, e) + end, Eval(env, Regrouped(e));
    MarkFollows(sp, ')', rest);
    SkipTwice(end);
    FollowsMore(0, LevelOfExpr(e), end);
    CRawRoundTrip(env, sp, e, end);
    Lift(env, 0, LevelOfExpr(e), s, end, v);
    assert sp + ("(" + (CRaw(sp, e) + (sp + ")"))) + rest == sp + (['('] + s);
    ValueSkips(env, sp, ['('] + s);
    Ahead('(', s);
    Ahead(')', rest);
    ParenValue(env, s, Skip(end), rest, v);
  }

  lemma {:induction false} CRawRoundTrip(env: Env, sp: string, e: Expr, rest: string)
    requires AllSpaces(sp) && Proper(env, e) && Follows(LevelOfExpr(e), rest)
    ensures Parsed(env, LevelOfExpr(e), CRaw(sp, e) + rest, rest, Eval(env, Regrouped(e)))
    decreases e, 1
  {
    hide Skip, LookFor, ParseLevel, ParseValue, CPrint, Raw, AllSpaces, Apply, Unary, LevelOf, Spelled, Parsed, Rotate;
    match e
    case Prefix(c, a) =>
      var t := CPrint(sp, TOP, a) + rest;
      var v := Eval(env, Regrouped(a));
      CRoundTrip(env, sp, TOP, a, rest);
      var r := TopLeaves(env, t, rest, v);
      Associate(sp, [c] + CPrint(sp, TOP, a), rest);
      Associate([c], CPrint(sp, TOP, a), rest);
      ValueSkips(env, sp, [c] + t);
      PrefixValue(env, c, t, r, v);
      TopParsed(env, CRaw(sp, e) + rest, r, rest, Unary(c, v));
    case Binary(op, l, r) =>
      CBinaryRoundTrip(env, sp, op, l, r, rest);
    case Cond(a, b, c) =>
      CCondRoundTrip(env, sp, a, b, c, rest);
    case _ => RawRoundTrip(env, sp, e, rest);
  }

  lemma {:induction false} CBinaryRoundTrip(env: Env, sp: string, op: Op, l: Expr, r: Expr, rest: string)
    requires AllSpaces(sp) && Proper(env, l) && Proper(env, r) && Follows(LevelOf(op), rest)
    ensures LevelOf(op) < TOP
    ensures Parsed(env, LevelOf(op), CRaw(sp, Binary(op, l, r)) + rest, rest, Eval(env, Rotate(l, op, Regrouped(r))))
    decreases Binary(op, l, r), 0
  {
    hide Skip, LookFor, ParseLevel, CPrint, AllSpaces, Apply, LevelOf, Spelled, Follows, Proper, BeginsOperand, Rotate, Regrouped, Eval;
    OpLevel(op);
    var k, right, v := LevelOf(op), CPrint(sp, LevelOf(op) + 1, r), Eval(env, Regrouped(r));
    var t := right + rest;
    CPrintBegins(sp, k + 1, env, r, rest);
    FollowsMore(k, k + 1, rest);
    CRoundTrip(env, sp, k + 1, r, rest);
    Lift(env, k, k + 1, t, rest, v);
    ChainRoundTrip(env, sp, l, op, Regrouped(r), t, Skip(rest));
    Associate(CPrint(sp, k, l), sp + (Spelled(op) + right), rest);
    Associate(sp, Spelled(op) + right, rest);
    Associate(Spelled(op), right, rest);
    SkipTwice(rest);
  }

  /** The operands of a chain, from the last to the first: each operator is applied to all that is read after it. */
  lemma {:induction false} ChainRoundTrip(env: Env, sp: string, l: Expr, op: Op, x: Expr, t: string, left: string)
    requires AllSpaces(sp) && Proper(env, l) && t != [] && BeginsOperand(t[0]) && LevelOf(op) < TOP
    requires ParseLevel(env, LevelOf(op), t) == Ok(left, Eval(env, x))
    ensures ParseLevel(env, LevelOf(op), CPrint(sp, LevelOf(op), l) + (sp + (Spelled(op) + t))) == Ok(left, Eval(env, Rotate(l, op, x)))
    decreases l, 4
  {
    hide Skip, LookFor, ParseLevel, CPrint, CRaw, AllSpaces, Apply, LevelOf, Spelled, Follows, BeginsOperand, Regrouped, Chained, Rotate, Proper,
      Parsed, Eval;
    OpLevel(op);
    var k, mid := LevelOf(op), sp + (Spelled(op) + t);
    OperatorFollows(sp, op, t);
    RotateIs(l, op, x);
    EvalBinary(env, op, Regrouped(l), x);
    if Chained(op, l) {
      var r1, v := CPrint(sp, k + 1, l.r), Eval(env, Regrouped(l.r));
      ChainParts(env, sp, op, l);
      CPrintBegins(sp, k + 1, env, l.r, mid);
      CRoundTrip(env, sp, k + 1, l.r, mid);
      OneOperand(env, sp, op, r1, v, t, left, Eval(env, x));
      EvalBinary(env, op, Regrouped(l.r), x);
      ChainRoundTrip(env, sp, l.l, l.op, Binary(op, Regrouped(l.r), x), r1 + mid, left);
      ChainText(CPrint(sp, k, l.l), sp, Spelled(l.op), r1, mid);
    } else {
      CRoundTrip(env, sp, k + 1, l, mid);
      SamePrint(sp, op, l);
      OneOperand(env, sp, op, CPrint(sp, k, l), Eval(env, Regrouped(l)), t, left, Eval(env, x));
    }
  }

  lemma EvalBinary(env: Env, op: Op, a: Expr, b: Expr)
    ensures Eval(env, Binary(op, a, b)) == Apply(op, Eval(env, a), Eval(env, b))
  {
    hide Apply;
  }

  /** An operand, and an operator with all behind it. */
  lemma OneOperand(env: Env, sp: string, op: Op, s: string, v: int, t: string, left: string, w: int)
    requires AllSpaces(sp) && t != [] && BeginsOperand(t[0]) && LevelOf(op) < TOP
    requires Parsed(env, LevelOf(op) + 1, s + (sp + (Spelled(op) + t)), sp + (Spelled(op) + t), v)
    requires ParseLevel(env, LevelOf(op), t) == Ok(left, w)
    ensures ParseLevel(env, LevelOf(op), s + (sp + (Spelled(op) + t))) == Ok(left, Apply(op, v, w))
  {
    hide Skip, LookFor, ParseLevel, AllSpaces, Apply, LevelOf, Spelled, BeginsOperand;
    var k, mid := LevelOf(op), sp + (Spelled(op) + t);
    OperatorFollows(sp, op, t);
    BinaryLevel(env, op, s + mid, ParseLevel(env, k + 1, s + mid).rest, v, t, left, w);
  }

  lemma ChainText(a: string, sp: string, op: string, b: string, mid: string)
    ensures a + (sp + (op + b)) + mid == a + (sp + (op + (b + mid)))
  {
    Associate(a, sp + (op + b), mid);
    Associate(sp, op + b, mid);
    Associate(op, b, mid);
  }

  lemma RotateIs(l: Expr, op: Op, x: Expr)
    ensures Chained(op, l) ==> l.Binary? && Rotate(l, op, x) == Rotate(l.l, l.op, Binary(op, Regrouped(l.r), x))
    ensures !Chained(op, l) ==> Rotate(l, op, x) == Binary(op, Regrouped(l), x)
  {
    hide Chained, Regrouped;
    if Chained(op, l) { ChainedIs(op, l); }
  }

  lemma ChainedIs(op: Op, l: Expr)
    requires Chained(op, l)
    ensures l.Binary? && LevelOf(l.op) == LevelOf(op)
  {
  }

  lemma ChainParts(env: Env, sp: string, op: Op, l: Expr)
    requires Chained(op, l) && Proper(env, l)
    ensures LevelOf(l.op) == LevelOf(op) && Proper(env, l.l) && Proper(env, l.r)
    ensures CPrint(sp, LevelOf(op), l) ==
      CPrint(sp, LevelOf(op), l.l) + (sp + (Spelled(l.op) + CPrint(sp, LevelOf(op) + 1, l.r)))
  {
    hide LevelOf, Spelled;
  }

  /** What is no operation of a level is written alike there and on the next level. */
  lemma SamePrint(sp: string, op: Op, l: Expr)
    requires !Chained(op, l)
    ensures CPrint(sp, LevelOf(op), l) == CPrint(sp, LevelOf(op) + 1, l)
  {
    hide CRaw;
  }

  lemma {:induction false} CCondRoundTrip(env: Env, sp: string, a: Expr, b: Expr, c: Expr, rest: string)
    requires AllSpaces(sp) && Proper(env, a) && Proper(env, b) && Proper(env, c) && Follows(0, rest)
    ensures Parsed(env, 0, CRaw(sp, Cond(a, b, c)) + rest, rest, Eval(env, Cond(Regrouped(a), Regrouped(b), Regrouped(c))))
    decreases Cond(a, b, c), 0
  {
    hide Skip, LookFor, ParseLevel, CPrint, AllSpaces, Follows, Proper, Regrouped;
    var pb, pc := CPrint(sp, 0, b), CPrint(sp, 0, c);
    var va, vb, vc := Eval(env, Regrouped(a)), Eval(env, Regrouped(b)), Eval(env, Regrouped(c));
    var u := pc + rest;
    var mid2 := sp + ([':'] + u);
    var t := pb + mid2;
    var mid1 := sp + (['?'] + t);
    var s := CPrint(sp, 1, a) + mid1;
    CondText(sp, CPrint(sp, 1, a), pb, pc, rest);
    MarkFollows(sp, '?', t);
    MarkFollows(sp, ':', u);
    CRoundTrip(env, sp, 1, a, mid1);
    CRoundTrip(env, sp, 0, b, mid2);
    CRoundTrip(env, sp, 0, c, rest);
    SkipTwice(rest);
    CondLevel(env, s, ParseLevel(env, 1, s).rest, va, t, ParseLevel(env, 0, t).rest, vb, u, Skip(rest), vc);
  }

  /** An expression as it is written in C is read to its end, and to the value it has when regrouped. */
  lemma ParsesRegrouped(env: Env, sp: string, e: Expr, end: string)
    requires AllSpaces(sp) && AllSpaces(end) && Proper(env, e)
    ensures ParseIfExpression(env, CPrint(sp, 0, e) + end) == Ok("", Eval(env, Regrouped(e)))
  {
    hide Skip, ParseLevel, CPrint, Eval, Proper, Regrouped;
    NothingFollows(end);
    CRoundTrip(env, sp, 0, e, end);
  }

  // When the grouping is that of C

  /** No operation has one of its own level for its left operand. */
  predicate NoChains(e: Expr) {
    match e
    case Prefix(_, a) => NoChains(a)
    case Binary(op, l, r) => !Chained(op, l) && NoChains(l) && NoChains(r)
    case Cond(a, b, c) => NoChains(a) && NoChains(b) && NoChains(c)
    case _ => true
  }

  /** Just then the parser groups as C does. */
  lemma {:induction false} RegroupedSame(e: Expr)
    ensures Regrouped(e) == e <==> NoChains(e)
    decreases e
  {
    match e
    case Prefix(_, a) => RegroupedSame(a);
    case Binary(op, l, r) =>
      RegroupedSame(l);
      RegroupedSame(r);
      if Chained(op, l) { RotatedLeft(l, op, Regrouped(r)); }
    case Cond(a, b, c) =>
      RegroupedSame(a);
      RegroupedSame(b);
      RegroupedSame(c);
    case _ =>
  }

  /** The left operand that comes of rotating is no operation of that level. */
  lemma {:induction false} RotatedLeft(l: Expr, op: Op, x: Expr)
    ensures var y := Rotate(l, op, x); y.Binary? && LevelOf(y.op) == LevelOf(op) && !Chained(op, y.l)
    decreases l, 1
  {
    hide LevelOf;
    if Chained(op, l) {
      RotatedLeft(l.l, l.op, Binary(op, Regrouped(l.r), x));
    } else {
      RegroupedLevel(l);
    }
  }

  lemma {:induction false} RegroupedLevel(e: Expr)
    ensures Regrouped(e).Binary? <==> e.Binary?
    ensures e.Binary? ==> LevelOf(Regrouped(e).op) == LevelOf(e.op)
    decreases e, 0
  {
    hide LevelOf;
    if e.Binary? { RotatedLeft(e.l, e.op, Regrouped(e.r)); }
  }

  // When the value is

  /** (a o b) p c is a o (b p c). */
  predicate Harmless(o: Op, p: Op) {
    (o == Add && (p == Add || p == Sub)) || (o == p && (o == Mul || o == And || o == Xor || o == Or || o == AndAnd || o == OrOr))
  }

  predicate Alike(o: Op, p: Op, a: int, b: int, c: int) {
    Apply(p, Apply(o, a, b), c) == Apply(o, a, Apply(p, b, c))
  }

  /** Values for which it is not; no operation on them is one that C leaves undefined. */
  function Unlike(o: Op, p: Op): (int, int, int) {
    if o == Shl || o == Shr then (1, 0, 1)
    else if o == Mod && p == Div then (1, 4, 2)
    else if (o == Ne && p == Ne) || (o == Lt && (p == Ge || p == Gt)) then (1, 2, 0)
    else if (o == Eq && p == Eq) || (o == Ge && (p == Le || p == Lt)) || (o == Gt && (p == Le || p == Lt)) || (o == Le && (p == Ge || p == Gt))
      then (0, 0, 2)
    else (4, 3, 2)
  }

  lemma UnlikeIs(o: Op, p: Op)
    requires LevelOf(o) == LevelOf(p) && !Harmless(o, p)
    ensures var (a, b, c) := Unlike(o, p); !Alike(o, p, a, b, c)
  {
    hide Alike;
    if LevelOf(o) == 8 {
      UnlikeShifts(o, p);
    } else if LevelOf(o) >= 9 {
      UnlikeArithmetic(o, p);
    } else {
      UnlikeComparisons(o, p);
    }
  }

  lemma UnlikeShifts(o: Op, p: Op)
    requires LevelOf(o) == LevelOf(p) == 8
    ensures !Alike(o, p, 1, 0, 1)
  {
    assert TwoTo(1) == 2 && TwoTo(0) == 1;
  }

  lemma UnlikeArithmetic(o: Op, p: Op)
    requires LevelOf(o) == LevelOf(p) >= 9 && !Harmless(o, p)
    ensures if o == Mod && p == Div then !Alike(o, p, 1, 4, 2) else !Alike(o, p, 4, 3, 2)
  {
    hide TwoTo, Bits, Quotient;
    Quotients();
  }

  lemma Quotients()
    ensures Quotient(1, 4) == 0 && Quotient(1, 2) == 0 && Quotient(4, 2) == 2 && Quotient(4, 3) == 1 && Quotient(3, 2) == 1
    ensures Quotient(12, 2) == 6 && Quotient(4, 6) == 0 && Quotient(4, 1) == 4
  {
  }

  lemma UnlikeComparisons(o: Op, p: Op)
    requires LevelOf(o) == LevelOf(p) && !Harmless(o, p) && LevelOf(o) < 8
    ensures var (a, b, c) := Unlike(o, p); !Alike(o, p, a, b, c)
  {
    hide TwoTo, Bits, Quotient;
  }

  lemma HarmlessIff(o: Op, p: Op)
    requires LevelOf(o) == LevelOf(p)
    ensures (forall a, b, c :: Alike(o, p, a, b, c)) <==> Harmless(o, p)
  {
    hide Alike, Harmless;
    if Harmless(o, p) {
      forall a, b, c
        ensures Alike(o, p, a, b, c)
      {
        HarmlessAlike(o, p, a, b, c);
      }
    } else {
      UnlikeIs(o, p);
      var (a, b, c) := Unlike(o, p);
      assert !Alike(o, p, a, b, c);
    }
  }

  lemma HarmlessAlike(o: Op, p: Op, a: int, b: int, c: int)
    requires Harmless(o, p)
    ensures Alike(o, p, a, b, c)
  {
    hide Bits, Quotient, TwoTo;
    if o == Mul {
      ProductAlike(a, b, c);
    } else if o == Add {
      SumAlike(p, a, b, c);
    } else if o == And || o == Or || o == Xor {
      BitsAssociate(o, a, b, c);
    }
  }

  lemma ProductAlike(a: int, b: int, c: int)
    ensures Alike(Mul, Mul, a, b, c)
  {
    assert a * b * c == a * (b * c);
  }

  lemma SumAlike(p: Op, a: int, b: int, c: int)
    requires p == Add || p == Sub
    ensures Alike(Add, p, a, b, c)
  {
  }

  /** Halves and last bits of what is done bit by bit. */
  lemma {:induction false} BitsStep(o: Op, a: int, b: int)
    ensures Bits(o, a, b) / 2 == Bits(o, a / 2, b / 2) && Bits(o, a, b) % 2 == Bit(o, a % 2, b % 2)
  {
    if -1 <= a <= 0 && -1 <= b <= 0 { assert a / 2 == a && b / 2 == b; }
  }

  lemma {:induction false} BitsAssociate(o: Op, a: int, b: int, c: int)
    requires o == And || o == Or || o == Xor
    ensures Bits(o, Bits(o, a, b), c) == Bits(o, a, Bits(o, b, c))
    decreases Abs(a) + Abs(b) + Abs(c)
  {
    hide Bits;
    if -1 <= a <= 0 && -1 <= b <= 0 && -1 <= c <= 0 {
      hide Abs;
      SmallBits(o, a, b);
      SmallBits(o, b, c);
      SmallBits(o, Bits(o, a, b), c);
      SmallBits(o, a, Bits(o, b, c));
    } else {
      Halves(a);
      Halves(b);
      Halves(c);
      BitsAssociate(o, a / 2, b / 2, c / 2);
      BitsAgree(o, a, b, c);
    }
  }

  lemma Halves(a: int)
    ensures Abs(a / 2) <= Abs(a) && (Abs(a / 2) == Abs(a) ==> -1 <= a <= 0)
  {
  }

  /** Numbers whose halves and last bits agree are the same. */
  lemma BitsAgree(o: Op, a: int, b: int, c: int)
    requires Bits(o, Bits(o, a / 2, b / 2), c / 2) == Bits(o, a / 2, Bits(o, b / 2, c / 2))
    requires o == And || o == Or || o == Xor
    ensures Bits(o, Bits(o, a, b), c) == Bits(o, a, Bits(o, b, c))
  {
    hide Bits, Bit, Abs;
    BitsStep(o, a, b);
    BitsStep(o, b, c);
    BitsStep(o, Bits(o, a, b), c);
    BitsStep(o, a, Bits(o, b, c));
    BitAssociates(o, a % 2, b % 2, c % 2);
  }

  lemma BitAssociates(o: Op, a: int, b: int, c: int)
    requires 0 <= a < 2 && 0 <= b < 2 && 0 <= c < 2
    ensures Bit(o, Bit(o, a, b), c) == Bit(o, a, Bit(o, b, c))
  {
  }

  lemma SmallBits(o: Op, a: int, b: int)
    requires -1 <= a <= 0 && -1 <= b <= 0
    ensures Bits(o, a, b) == -Bit(o, -a, -b) && -1 <= Bits(o, a, b) <= 0
  {
  }

  /** All chains are of operators for which it makes no difference. */
  predicate HarmlessChains(e: Expr) {
    match e
    case Prefix(_, a) => HarmlessChains(a)
    case Binary(op, l, r) => (Chained(op, l) ==> Harmless(l.op, op)) && HarmlessChains(l) && HarmlessChains(r)
    case Cond(a, b, c) => HarmlessChains(a) && HarmlessChains(b) && HarmlessChains(c)
    case _ => true
  }

  lemma {:induction false} RegroupedValue(env: Env, e: Expr)
    requires HarmlessChains(e)
    ensures Eval(env, Regrouped(e)) == Eval(env, e)
    decreases e, 0
  {
    hide Apply, Rotate, Chained, Harmless, Unary, Value;
    match e
    case Prefix(_, a) => RegroupedValue(env, a);
    case Binary(op, l, r) =>
      RegroupedValue(env, r);
      if Chained(op, l) { ChainedIs(op, l); }
      RotatedValue(env, l, op, Regrouped(r));
    case Cond(a, b, c) =>
      RegroupedValue(env, a);
      RegroupedValue(env, b);
      RegroupedValue(env, c);
    case _ =>
  }

  lemma {:induction false} RotatedValue(env: Env, l: Expr, op: Op, x: Expr)
    requires HarmlessChains(l) && (Chained(op, l) ==> l.Binary? && Harmless(l.op, op))
    ensures Eval(env, Rotate(l, op, x)) == Apply(op, Eval(env, l), Eval(env, x))
    decreases l, 1
  {
    hide Apply, Rotate, Harmless, Regrouped, Value, Unary;
    RotateIs(l, op, x);
    if Chained(op, l) {
      RegroupedValue(env, l.r);
      RotatedValue(env, l.l, l.op, Binary(op, Regrouped(l.r), x));
      HarmlessAlike(l.op, op, Eval(env, l.l), Eval(env, l.r), Eval(env, x));
    } else {
      RegroupedValue(env, l);
    }
  }

  /** Then the parser finds the value the expression has in C. */
  lemma AgreesWithC(env: Env, sp: string, e: Expr, end: string)
    requires AllSpaces(sp) && AllSpaces(end) && Proper(env, e) && HarmlessChains(e)
    ensures ParseIfExpression(env, CPrint(sp, 0, e) + end) == Ok("", Eval(env, e))
  {
    hide CPrint, Eval, Proper, Regrouped, ParseIfExpression, HarmlessChains;
    ParsesRegrouped(env, sp, e, end);
    RegroupedValue(env, e);
  }

  function ThreeNames(o: Op, p: Op, x: string, y: string, z: string): Expr {
    Binary(p, Binary(o, Var(x), Var(y)), Var(z))
  }

  /** Which operators those are is seen from three names: whatever they stand for, the value is that of C just then. */
  lemma AgreesIff(sp: string, o: Op, p: Op, x: string, y: string, z: string)
    requires AllSpaces(sp) && LevelOf(o) == LevelOf(p) && x != y && y != z && x != z
    requires forall n :: n in [x, y, z] ==> NameProper(n) && !IsDefined(n)
    ensures (forall env: Env :: Proper(env, ThreeNames(o, p, x, y, z)) ==>
        ParseIfExpression(env, CPrint(sp, 0, ThreeNames(o, p, x, y, z))) == Ok("", Eval(env, ThreeNames(o, p, x, y, z)))) <==>
      Harmless(o, p)
  {
    hide CPrint, ParseIfExpression, Harmless, NameProper, IsDefined, LevelOf, Unlike, Apply, Proper, HarmlessChains, ThreeNames;
    var e := ThreeNames(o, p, x, y, z);
    var text := CPrint(sp, 0, e);
    assert text + "" == text;
    assert x in [x, y, z] && y in [x, y, z] && z in [x, y, z];
    if Harmless(o, p) {
      forall env: Env | Proper(env, e)
        ensures ParseIfExpression(env, text) == Ok("", Eval(env, e))
      {
        ThreeHarmless(o, p, x, y, z);
        AgreesWithC(env, sp, e, "");
      }
    } else {
      var (a, b, c) := Unlike(o, p);
      var env := Env(n => if n == x then a else if n == y then b else c, _ => false, _ => false);
      assert Proper(env, e) by { ThreeProper(env, o, p, x, y, z); }
      ParsesRegrouped(env, sp, e, "");
      ThreeRegrouped(env, o, p, x, y, z);
      UnlikeIs(o, p);
    }
  }

  lemma ThreeRegrouped(env: Env, o: Op, p: Op, x: string, y: string, z: string)
    requires LevelOf(o) == LevelOf(p)
    ensures Eval(env, Regrouped(ThreeNames(o, p, x, y, z))) == Apply(o, env.value(x), Apply(p, env.value(y), env.value(z)))
    ensures Eval(env, ThreeNames(o, p, x, y, z)) == Apply(p, Apply(o, env.value(x), env.value(y)), env.value(z))
  {
    hide Apply, LevelOf;
    var l := Binary(o, Var(x), Var(y));
    assert Regrouped(Var(z)) == Var(z) && Regrouped(Var(y)) == Var(y) && Regrouped(Var(x)) == Var(x);
    RotateIs(l, p, Var(z));
    RotateIs(Var(x), o, Binary(p, Var(y), Var(z)));
    assert Regrouped(Binary(p, l, Var(z))) == Binary(o, Var(x), Binary(p, Var(y), Var(z)));
    assert Eval(env, l) == Apply(o, env.value(x), env.value(y));
    assert Eval(env, Binary(p, Var(y), Var(z))) == Apply(p, env.value(y), env.value(z));
  }

  lemma ThreeHarmless(o: Op, p: Op, x: string, y: string, z: string)
    requires Harmless(o, p)
    ensures HarmlessChains(ThreeNames(o, p, x, y, z))
  {
    hide Harmless, LevelOf;
    assert !Chained(o, Var(x)) && HarmlessChains(Var(x)) && HarmlessChains(Var(y)) && HarmlessChains(Var(z));
    assert HarmlessChains(Binary(o, Var(x), Var(y)));
  }

  lemma ThreeProper(env: Env, o: Op, p: Op, x: string, y: string, z: string)
    requires forall n :: n in [x, y, z] ==> NameProper(n) && !IsDefined(n) && !env.hasArgs(n)
    ensures Proper(env, ThreeNames(o, p, x, y, z))
  {
    hide NameProper, IsDefined;
    assert x in [x, y, z] && y in [x, y, z] && z in [x, y, z];
    assert Proper(env, Binary(o, Var(x), Var(y)));
  }

  // Names that begin with "defined"

  /** What is made of a name that is taken for the operator: the rest of it is what is asked about. */
  lemma TakenForDefined(env: Env, name: string)
    requires NameProper(name) && IsDefined(name)
    ensures ParseIfExpression(env, name) == if name == "defined" then Fail else Ok("", Truth(env.defined(name[7..])))
  {
    hide NumProper, Skip, ParseLevel, ParseValue, ParseDefined;
    var u := name[7..];
    assert name == "defined" + u;
    if u == "" {
      assert name == "defined";
      DefinedAlone(env);
      FailsBelow(env, 0, name);
    } else {
      assert u[0] == name[7] == '_';
      assert NameProper(u);
      DefinedRest(env, u);
      NothingFollows("");
      TopParsed(env, name, "", "", Truth(env.defined(u)));
      FollowsMore(0, TOP, "");
      Lift(env, 0, TOP, name, "", Truth(env.defined(u)));
    }
  }

  lemma DefinedAlone(env: Env)
    ensures ParseValue(env, "defined") == Fail
  {
    hide ParseLevel, Number, NameLen;
    SkipNone("defined");
    assert "defined"[..7] == "defined" && "defined"[7..] == "";
  }

  lemma DefinedRest(env: Env, u: string)
    requires NameProper(u) && u[0] == '_'
    ensures ParseValue(env, "defined" + u) == Ok("", Truth(env.defined(u)))
  {
    hide ParseLevel, ParseValue, Number;
    DefinedValue(env, u);
    NameRead(u, "");
    assert u + "" == u;
    SkipNone(u);
    SkipNone("");
  }

  lemma {:induction false} FailsBelow(env: Env, k: nat, s: string)
    requires k <= TOP && ParseValue(env, s) == Fail
    ensures ParseLevel(env, k, s) == Fail
    decreases TOP - k
  {
    hide ParseValue, Skip, LookFor;
    if k < TOP { FailsBelow(env, k + 1, s); }
  }

  lemma DefinedUnderscore(env: Env)
    ensures ParseIfExpression(env, "defined_x") == Ok("", Truth(env.defined("_x")))
  {
    hide ParseIfExpression;
    var name := "defined_x";
    assert name[..7] == "defined" && name[7..] == "_x" && At(name, 7) == '_';
    TakenForDefined(env, name);
  }

  /** A name is read to its value, whatever it stands for, just when it is not taken for the operator. */
  lemma NameReadIff(name: string)
    requires NameProper(name)
    ensures (forall env: Env :: !env.hasArgs(name) ==> ParseIfExpression(env, name) == Ok("", env.value(name))) <==> !IsDefined(name)
  {
    hide ParseIfExpression, IsDefined, NameProper, Print;
    assert name + "" == name;
    if IsDefined(name) {
      var env := Env(_ => 2, _ => false, _ => false);
      TakenForDefined(env, name);
    } else {
      forall env: Env | !env.hasArgs(name)
        ensures ParseIfExpression(env, name) == Ok("", env.value(name))
      {
        ParsesBack(env, "", Var(name), "");
        NamePrinted(name);
      }
    }
  }

  lemma NamePrinted(name: string)
    ensures Print("", 0, Var(name)) == name
  {
    assert Raw("", Var(name)) == "" + name == name;
  }
}
