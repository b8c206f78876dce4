/**
  What the operators of #if expressions compute, by laws between the values of texts: none of them says how.
 */
module OperatorLaws {
  import opened IfParser

  /** The value an expression has when it is printed and read. */
  function ValueOf(env: Env, sp: string, e: Expr): int {
    var r := ParseIfExpression(env, Print(sp, 0, e));
    if r.Ok? then r.val else 0
  }

  const ZERO := Num(Octal, "", "")
  const ONE := Num(Decimal, "1", "")

  lemma ValueIs(env: Env, sp: string, e: Expr)
    requires AllSpaces(sp) && Proper(env, e)
    ensures ParseIfExpression(env, Print(sp, 0, e)) == Ok("", ValueOf(env, sp, e)) && ValueOf(env, sp, e) == Eval(env, e)
  {
    hide ParseIfExpression, Print, Eval, Proper;
    ParsesBack(env, sp, e, "");
    assert Print(sp, 0, e) + "" == Print(sp, 0, e);
  }

  lemma BinaryIs(env: Env, sp: string, op: Op, x: Expr, y: Expr)
    requires AllSpaces(sp) && Proper(env, x) && Proper(env, y)
    ensures Proper(env, Binary(op, x, y)) && ValueOf(env, sp, Binary(op, x, y)) == Apply(op, ValueOf(env, sp, x), ValueOf(env, sp, y))
  {
    hide ParseIfExpression, Print, Apply, ValueOf;
    ValueIs(env, sp, x);
    ValueIs(env, sp, y);
    ValueIs(env, sp, Binary(op, x, y));
  }

  lemma PrefixIs(env: Env, sp: string, c: char, x: Expr)
    requires AllSpaces(sp) && Proper(env, x) && (c == '!' || c == '-' || c == '+' || c == '~')
    ensures Proper(env, Prefix(c, x)) && ValueOf(env, sp, Prefix(c, x)) == Unary(c, ValueOf(env, sp, x))
  {
    hide ParseIfExpression, Print, Unary, ValueOf;
    ValueIs(env, sp, x);
    ValueIs(env, sp, Prefix(c, x));
  }

  lemma ConstantsAre(env: Env, sp: string)
    requires AllSpaces(sp)
    ensures Proper(env, ZERO) && ValueOf(env, sp, ZERO) == 0
    ensures Proper(env, ONE) && ValueOf(env, sp, ONE) == 1
  {
    hide ParseIfExpression, Print, ValueOf;
    assert Proper(env, ZERO) && Eval(env, ZERO) == 0;
    OneIsOne(env);
    ValueIs(env, sp, ZERO);
    ValueIs(env, sp, ONE);
  }

  /** Conjunction and disjunction: 1 if true, 0 if not. */
  lemma LogicLaws(env: Env, sp: string, x: Expr, y: Expr)
    requires AllSpaces(sp) && Proper(env, x) && Proper(env, y)
    ensures ValueOf(env, sp, Binary(AndAnd, x, y)) == if ValueOf(env, sp, x) != 0 && ValueOf(env, sp, y) != 0 then 1 else 0
    ensures ValueOf(env, sp, Binary(OrOr, x, y)) == if ValueOf(env, sp, x) == 0 && ValueOf(env, sp, y) == 0 then 0 else 1
    ensures ValueOf(env, sp, Binary(AndAnd, x, ZERO)) == 0 == ValueOf(env, sp, Binary(AndAnd, ZERO, x))
    ensures ValueOf(env, sp, Binary(AndAnd, x, ONE)) == ValueOf(env, sp, Binary(OrOr, x, ZERO)) == ValueOf(env, sp, Binary(Ne, x, ZERO))
    ensures ValueOf(env, sp, Binary(OrOr, x, ONE)) == 1 == ValueOf(env, sp, Binary(OrOr, ONE, x))
    ensures ValueOf(env, sp, Prefix('!', x)) == if ValueOf(env, sp, x) == 0 then 1 else 0
    ensures ValueOf(env, sp, Cond(ONE, x, y)) == ValueOf(env, sp, x) && ValueOf(env, sp, Cond(ZERO, x, y)) == ValueOf(env, sp, y)
  {
    hide ValueOf, ParseIfExpression, Print, Proper, Bits, Quotient, TwoTo;
    ConstantsAre(env, sp);
    BinaryIs(env, sp, AndAnd, x, y);
    BinaryIs(env, sp, OrOr, x, y);
    BinaryIs(env, sp, AndAnd, x, ZERO);
    BinaryIs(env, sp, AndAnd, ZERO, x);
    BinaryIs(env, sp, AndAnd, x, ONE);
    BinaryIs(env, sp, OrOr, x, ZERO);
    BinaryIs(env, sp, OrOr, x, ONE);
    BinaryIs(env, sp, OrOr, ONE, x);
    BinaryIs(env, sp, Ne, x, ZERO);
    PrefixIs(env, sp, '!', x);
    Conditional(env, sp, ONE, x, y);
    Conditional(env, sp, ZERO, x, y);
  }

  lemma Conditional(env: Env, sp: string, c: Expr, x: Expr, y: Expr)
    requires AllSpaces(sp) && Proper(env, c) && Proper(env, x) && Proper(env, y)
    ensures ValueOf(env, sp, Cond(c, x, y)) == if ValueOf(env, sp, c) != 0 then ValueOf(env, sp, x) else ValueOf(env, sp, y)
  {
    hide ParseIfExpression, Print, ValueOf;
    ValueIs(env, sp, c);
    ValueIs(env, sp, x);
    ValueIs(env, sp, y);
    ValueIs(env, sp, Cond(c, x, y));
  }

  /** Comparisons: a strict order of the integers, and what is said with it. */
  lemma OrderLaws(env: Env, sp: string, x: Expr, y: Expr, z: Expr)
    requires AllSpaces(sp) && Proper(env, x) && Proper(env, y) && Proper(env, z)
    ensures ValueOf(env, sp, Binary(Lt, x, x)) == 0
    ensures ValueOf(env, sp, Binary(Lt, x, Binary(Add, x, ONE))) == 1
    ensures ValueOf(env, sp, Binary(Lt, x, y)) == 1 && ValueOf(env, sp, Binary(Lt, y, z)) == 1 ==> ValueOf(env, sp, Binary(Lt, x, z)) == 1
    ensures ValueOf(env, sp, Binary(Lt, x, y)) in {0, 1}
    ensures ValueOf(env, sp, Binary(Gt, x, y)) == ValueOf(env, sp, Binary(Lt, y, x))
    ensures ValueOf(env, sp, Binary(Le, x, y)) == ValueOf(env, sp, Prefix('!', Binary(Lt, y, x)))
    ensures ValueOf(env, sp, Binary(Ge, x, y)) == ValueOf(env, sp, Prefix('!', Binary(Lt, x, y)))
    ensures ValueOf(env, sp, Binary(Eq, x, y)) == ValueOf(env, sp, Binary(AndAnd, Binary(Le, x, y), Binary(Ge, x, y)))
    ensures ValueOf(env, sp, Binary(Ne, x, y)) == ValueOf(env, sp, Prefix('!', Binary(Eq, x, y)))
  {
    hide ValueOf, ParseIfExpression, Print, Proper, Bits, Quotient, TwoTo;
    ConstantsAre(env, sp);
    BinaryIs(env, sp, Lt, x, x);
    BinaryIs(env, sp, Add, x, ONE);
    BinaryIs(env, sp, Lt, x, Binary(Add, x, ONE));
    BinaryIs(env, sp, Lt, x, y);
    BinaryIs(env, sp, Lt, y, z);
    BinaryIs(env, sp, Lt, x, z);
    BinaryIs(env, sp, Lt, y, x);
    BinaryIs(env, sp, Gt, x, y);
    BinaryIs(env, sp, Le, x, y);
    BinaryIs(env, sp, Ge, x, y);
    BinaryIs(env, sp, Eq, x, y);
    BinaryIs(env, sp, Ne, x, y);
    BinaryIs(env, sp, AndAnd, Binary(Le, x, y), Binary(Ge, x, y));
    PrefixIs(env, sp, '!', Binary(Lt, y, x));
    PrefixIs(env, sp, '!', Binary(Lt, x, y));
    PrefixIs(env, sp, '!', Binary(Eq, x, y));
  }

  /** x < y just when some positive number added to x gives y. */
  lemma LessIff(env: Env, sp: string, x: Expr, y: Expr)
    requires AllSpaces(sp) && Proper(env, x) && Proper(env, y)
    ensures ValueOf(env, sp, Binary(Lt, x, y)) == 1 <==> ValueOf(env, sp, Binary(Sub, y, x)) > 0
    ensures ValueOf(env, sp, Binary(Add, Binary(Sub, y, x), x)) == ValueOf(env, sp, y)
    ensures ValueOf(env, sp, Binary(Add, x, y)) == ValueOf(env, sp, x) + ValueOf(env, sp, y)
    ensures ValueOf(env, sp, Prefix('-', x)) + ValueOf(env, sp, x) == 0 && ValueOf(env, sp, Prefix('+', x)) == ValueOf(env, sp, x)
    ensures ValueOf(env, sp, Binary(Add, Prefix('~', x), ONE)) == ValueOf(env, sp, Prefix('-', x))
  {
    hide ValueOf, ParseIfExpression, Print, Proper, Bits, Quotient, TwoTo;
    ConstantsAre(env, sp);
    BinaryIs(env, sp, Lt, x, y);
    BinaryIs(env, sp, Sub, y, x);
    BinaryIs(env, sp, Add, Binary(Sub, y, x), x);
    BinaryIs(env, sp, Add, x, y);
    PrefixIs(env, sp, '-', x);
    PrefixIs(env, sp, '+', x);
    PrefixIs(env, sp, '~', x);
    BinaryIs(env, sp, Add, Prefix('~', x), ONE);
  }

  /** Products: nothing, and once more for one more. */
  lemma ProductLaws(env: Env, sp: string, x: Expr, y: Expr)
    requires AllSpaces(sp) && Proper(env, x) && Proper(env, y)
    ensures ValueOf(env, sp, Binary(Mul, x, ZERO)) == 0
    ensures ValueOf(env, sp, Binary(Mul, x, Binary(Add, y, ONE))) == ValueOf(env, sp, Binary(Add, Binary(Mul, x, y), x))
  {
    hide ValueOf, ParseIfExpression, Print, Proper, Bits, Quotient, TwoTo;
    ConstantsAre(env, sp);
    BinaryIs(env, sp, Mul, x, ZERO);
    BinaryIs(env, sp, Add, y, ONE);
    BinaryIs(env, sp, Mul, x, Binary(Add, y, ONE));
    BinaryIs(env, sp, Mul, x, y);
    BinaryIs(env, sp, Add, Binary(Mul, x, y), x);
    var a, b := ValueOf(env, sp, x), ValueOf(env, sp, y);
    assert a * (b + 1) == a * b + a;
  }

  /** Division by anything but zero: what remains is less than the divisor and on the side of the dividend. */
  lemma DivisionLaws(env: Env, sp: string, x: Expr, y: Expr)
    requires AllSpaces(sp) && Proper(env, x) && Proper(env, y) && ValueOf(env, sp, y) != 0
    ensures ValueOf(env, sp, Binary(Add, Binary(Mul, Binary(Div, x, y), y), Binary(Mod, x, y))) == ValueOf(env, sp, x)
    ensures var r, d := ValueOf(env, sp, Binary(Mod, x, y)), ValueOf(env, sp, y);
      && (0 <= r < d || 0 <= r < -d || 0 <= -r < d || 0 <= -r < -d)
      && (ValueOf(env, sp, x) >= 0 ==> r >= 0) && (ValueOf(env, sp, x) <= 0 ==> r <= 0)
  {
    hide ValueOf, ParseIfExpression, Print, Proper, Bits, Quotient, TwoTo;
    BinaryIs(env, sp, Div, x, y);
    BinaryIs(env, sp, Mod, x, y);
    BinaryIs(env, sp, Mul, Binary(Div, x, y), y);
    BinaryIs(env, sp, Add, Binary(Mul, Binary(Div, x, y), y), Binary(Mod, x, y));
    Remains(ValueOf(env, sp, x), ValueOf(env, sp, y));
  }

  lemma Remains(a: int, b: int)
    requires b != 0
    ensures var r := a - Quotient(a, b) * b;
      && (0 <= r < b || 0 <= r < -b || 0 <= -r < b || 0 <= -r < -b) && (a >= 0 ==> r >= 0) && (a <= 0 ==> r <= 0)
  {
    hide Abs;
    Sizes(a);
    Sizes(b);
    var q := Abs(a) / Abs(b);
    Divided(Abs(a), Abs(b));
    var s := if (a >= 0) == (b > 0) then q else -q;
    assert Quotient(a, b) == s;
    Signs(q, b);
    RemainsOf(a, b, q * b, s * b, q * Abs(b), Abs(b));
  }

  lemma RemainsOf(a: int, b: int, p: int, t: int, u: int, n: int)
    requires b != 0 && u >= 0 && n == (if b < 0 then -b else b) && u == (if b < 0 then -p else p)
    requires t == (if (a >= 0) == (b > 0) then p else -p) && 0 <= (if a < 0 then -a else a) - u < n
    ensures var r := a - t;
      && (0 <= r < b || 0 <= r < -b || 0 <= -r < b || 0 <= -r < -b) && (a >= 0 ==> r >= 0) && (a <= 0 ==> r <= 0)
  {
  }

  lemma Sizes(a: int)
    ensures Abs(a) == if a < 0 then -a else a
  {
  }

  lemma Divided(m: nat, n: nat)
    requires n > 0
    ensures 0 <= m - m / n * n < n && m / n * n >= 0
  {
  }

  lemma Signs(q: int, b: int)
    ensures (-q) * b == -(q * b) && q * -b == -(q * b) && (-q) * -b == q * b
  {
  }

  /** Shifts by numbers that are not negative. */
  lemma ShiftLaws(env: Env, sp: string, x: Expr, m: Expr, n: Expr)
    requires AllSpaces(sp) && Proper(env, x) && Proper(env, m) && Proper(env, n)
    requires ValueOf(env, sp, m) >= 0 && ValueOf(env, sp, n) >= 0
    ensures ValueOf(env, sp, Binary(Shl, x, ZERO)) == ValueOf(env, sp, x)
    ensures ValueOf(env, sp, Binary(Shl, x, ONE)) == ValueOf(env, sp, Binary(Add, x, x))
    ensures ValueOf(env, sp, Binary(Shl, Binary(Shl, x, m), n)) == ValueOf(env, sp, Binary(Shl, x, Binary(Add, m, n)))
    ensures ValueOf(env, sp, Binary(Le, Binary(Shl, Binary(Shr, x, n), n), x)) == 1
    ensures ValueOf(env, sp, Binary(Lt, x, Binary(Shl, Binary(Add, Binary(Shr, x, n), ONE), n))) == 1
  {
    hide ValueOf, ParseIfExpression, Print, Proper;
    ShiftedLittle(env, sp, x);
    ShiftedTwice(env, sp, x, m, n);
    ShiftedBack(env, sp, x, n);
  }

  lemma ShiftedLittle(env: Env, sp: string, x: Expr)
    requires AllSpaces(sp) && Proper(env, x)
    ensures ValueOf(env, sp, Binary(Shl, x, ZERO)) == ValueOf(env, sp, x)
    ensures ValueOf(env, sp, Binary(Shl, x, ONE)) == ValueOf(env, sp, Binary(Add, x, x))
  {
    hide ValueOf, ParseIfExpression, Print, Proper, TwoTo, Apply;
    ConstantsAre(env, sp);
    ShiftIs(env, sp, x, ZERO);
    ShiftIs(env, sp, x, ONE);
    SumIs(env, sp, x, x);
    SmallPowers();
  }

  lemma SmallPowers()
    ensures TwoTo(0) == 1 && TwoTo(1) == 2
  {
  }

  lemma ShiftedTwice(env: Env, sp: string, x: Expr, m: Expr, n: Expr)
    requires AllSpaces(sp) && Proper(env, x) && Proper(env, m) && Proper(env, n)
    requires ValueOf(env, sp, m) >= 0 && ValueOf(env, sp, n) >= 0
    ensures ValueOf(env, sp, Binary(Shl, Binary(Shl, x, m), n)) == ValueOf(env, sp, Binary(Shl, x, Binary(Add, m, n)))
  {
    hide ValueOf, ParseIfExpression, Print, Proper, TwoTo, Apply;
    ShiftIs(env, sp, x, m);
    ShiftIs(env, sp, Binary(Shl, x, m), n);
    SumIs(env, sp, m, n);
    ShiftIs(env, sp, x, Binary(Add, m, n));
    Powers(ValueOf(env, sp, x), ValueOf(env, sp, m), ValueOf(env, sp, n));
  }

  lemma ShiftedBack(env: Env, sp: string, x: Expr, n: Expr)
    requires AllSpaces(sp) && Proper(env, x) && Proper(env, n) && ValueOf(env, sp, n) >= 0
    ensures ValueOf(env, sp, Binary(Le, Binary(Shl, Binary(Shr, x, n), n), x)) == 1
    ensures ValueOf(env, sp, Binary(Lt, x, Binary(Shl, Binary(Add, Binary(Shr, x, n), ONE), n))) == 1
  {
    hide ValueOf, ParseIfExpression, Print, Proper, TwoTo, Apply;
    ConstantsAre(env, sp);
    var q := Binary(Shr, x, n);
    ShiftIs(env, sp, x, n);
    ShiftIs(env, sp, q, n);
    SumIs(env, sp, q, ONE);
    ShiftIs(env, sp, Binary(Add, q, ONE), n);
    BinaryIs(env, sp, Le, Binary(Shl, q, n), x);
    BinaryIs(env, sp, Lt, x, Binary(Shl, Binary(Add, q, ONE), n));
    Halved(ValueOf(env, sp, x), ValueOf(env, sp, n));
    Compared(ValueOf(env, sp, Binary(Shl, q, n)), ValueOf(env, sp, x), ValueOf(env, sp, Binary(Shl, Binary(Add, q, ONE), n)));
  }

  lemma Compared(a: int, b: int, c: int)
    requires a <= b < c
    ensures Apply(Le, a, b) == 1 && Apply(Lt, b, c) == 1
  {
  }

  lemma ShiftIs(env: Env, sp: string, x: Expr, n: Expr)
    requires AllSpaces(sp) && Proper(env, x) && Proper(env, n) && ValueOf(env, sp, n) >= 0
    ensures Proper(env, Binary(Shl, x, n)) && ValueOf(env, sp, Binary(Shl, x, n)) == ValueOf(env, sp, x) * TwoTo(ValueOf(env, sp, n))
    ensures Proper(env, Binary(Shr, x, n)) && ValueOf(env, sp, Binary(Shr, x, n)) == ValueOf(env, sp, x) / TwoTo(ValueOf(env, sp, n))
  {
    hide ValueOf, ParseIfExpression, Print, Proper, TwoTo;
    BinaryIs(env, sp, Shl, x, n);
    BinaryIs(env, sp, Shr, x, n);
  }

  lemma SumIs(env: Env, sp: string, x: Expr, y: Expr)
    requires AllSpaces(sp) && Proper(env, x) && Proper(env, y)
    ensures Proper(env, Binary(Add, x, y)) && ValueOf(env, sp, Binary(Add, x, y)) == ValueOf(env, sp, x) + ValueOf(env, sp, y)
  {
    hide ValueOf, ParseIfExpression, Print, Proper;
    BinaryIs(env, sp, Add, x, y);
  }

  lemma Powers(a: int, m: nat, n: nat)
    ensures a * TwoTo(m) * TwoTo(n) == a * TwoTo(m + n)
  {
    hide TwoTo;
    PowersAdd(m, n);
    Products(a, TwoTo(m), TwoTo(n));
  }

  lemma Products(a: int, b: int, c: int)
    ensures a * b * c == a * (b * c)
  {
  }

  lemma {:induction false} PowersAdd(m: nat, n: nat)
    ensures TwoTo(m + n) == TwoTo(m) * TwoTo(n)
    decreases n
  {
    if n > 0 {
      PowersAdd(m, n - 1);
      Twice(TwoTo(m), TwoTo(n - 1));
    }
  }

  lemma Twice(a: int, b: int)
    ensures a * (2 * b) == 2 * (a * b)
  {
  }

  lemma Halved(a: int, n: nat)
    ensures a / TwoTo(n) * TwoTo(n) <= a < (a / TwoTo(n) + 1) * TwoTo(n)
  {
    hide TwoTo;
    var p := TwoTo(n);
    assert a == a / p * p + a % p && 0 <= a % p < p;
    assert (a / p + 1) * p == a / p * p + p;
  }

  /** Bit by bit: -1 has all bits, and the bits of two numbers are those of both and those of either. */
  lemma BitLaws(env: Env, sp: string, x: Expr, y: Expr)
    requires AllSpaces(sp) && Proper(env, x) && Proper(env, y)
    ensures ValueOf(env, sp, Binary(And, x, Prefix('-', ONE))) == ValueOf(env, sp, x)
    ensures ValueOf(env, sp, Binary(And, x, ZERO)) == 0
    ensures ValueOf(env, sp, Binary(Add, Binary(And, x, y), Binary(Or, x, y))) == ValueOf(env, sp, Binary(Add, x, y))
    ensures ValueOf(env, sp, Binary(Xor, x, y)) == ValueOf(env, sp, Binary(Sub, Binary(Or, x, y), Binary(And, x, y)))
    ensures ValueOf(env, sp, Binary(And, Binary(Shl, x, ONE), Binary(Shl, y, ONE))) == ValueOf(env, sp, Binary(Shl, Binary(And, x, y), ONE))
    ensures ValueOf(env, sp, Binary(And, x, ONE)) == ValueOf(env, sp, x) - ValueOf(env, sp, Binary(Shl, Binary(Shr, x, ONE), ONE))
    ensures ValueOf(env, sp, Binary(Shr, Binary(And, x, y), ONE)) == ValueOf(env, sp, Binary(And, Binary(Shr, x, ONE), Binary(Shr, y, ONE)))
  {
    hide ValueOf, ParseIfExpression, Print, Proper, Bits, Quotient, TwoTo;
    ConstantsAre(env, sp);
    var h, k := Binary(Shr, x, ONE), Binary(Shr, y, ONE);
    PrefixIs(env, sp, '-', ONE);
    BinaryIs(env, sp, And, x, Prefix('-', ONE));
    BinaryIs(env, sp, And, x, ZERO);
    BinaryIs(env, sp, And, x, ONE);
    BinaryIs(env, sp, And, x, y);
    BinaryIs(env, sp, Or, x, y);
    BinaryIs(env, sp, Xor, x, y);
    BinaryIs(env, sp, Add, x, y);
    BinaryIs(env, sp, Add, Binary(And, x, y), Binary(Or, x, y));
    BinaryIs(env, sp, Sub, Binary(Or, x, y), Binary(And, x, y));
    BinaryIs(env, sp, Shl, x, ONE);
    BinaryIs(env, sp, Shl, y, ONE);
    BinaryIs(env, sp, And, Binary(Shl, x, ONE), Binary(Shl, y, ONE));
    BinaryIs(env, sp, Shl, Binary(And, x, y), ONE);
    BinaryIs(env, sp, Shr, x, ONE);
    BinaryIs(env, sp, Shr, y, ONE);
    BinaryIs(env, sp, Shl, h, ONE);
    BinaryIs(env, sp, Shr, Binary(And, x, y), ONE);
    BinaryIs(env, sp, And, h, k);
    BitFacts(ValueOf(env, sp, x), ValueOf(env, sp, y));
  }

  lemma BitFacts(a: int, b: int)
    ensures TwoTo(1) == 2 && Bits(And, a, -1) == a && Bits(And, a, 0) == 0 && Bits(And, a, 1) == a - a / 2 * 2
    ensures Bits(And, a, b) + Bits(Or, a, b) == a + b && Bits(Xor, a, b) == Bits(Or, a, b) - Bits(And, a, b)
    ensures Bits(And, a * 2, b * 2) == Bits(And, a, b) * 2 && Bits(And, a, b) / 2 == Bits(And, a / 2, b / 2)
  {
    hide Bits;
    assert TwoTo(1) == 2 * TwoTo(0) && TwoTo(0) == 1;
    AllBits(a);
    NoBits(a);
    NoBits(a / 2);
    BothAndEither(a, b);
    Steps(And, a, b);
    Steps(And, a * 2, b * 2);
    Steps(And, a, 1);
  }

  /** Halves and last bits of what is done bit by bit. */
  lemma {:induction false} Steps(o: Op, a: int, b: int)
    ensures Bits(o, a, b) == 2 * Bits(o, a / 2, b / 2) + Bit(o, a % 2, b % 2)
  {
    if -1 <= a <= 0 && -1 <= b <= 0 { assert a / 2 == a && b / 2 == b; }
  }

  lemma {:induction false} AllBits(a: int)
    ensures Bits(And, a, -1) == a
    decreases Abs(a)
  {
    hide Bits;
    if -1 <= a <= 0 {
      SmallAll(a);
    } else {
      Steps(And, a, -1);
      AllBits(a / 2);
    }
  }

  lemma SmallAll(a: int)
    requires -1 <= a <= 0
    ensures Bits(And, a, -1) == a && Bits(And, a, 0) == 0
  {
  }

  lemma {:induction false} NoBits(a: int)
    ensures Bits(And, a, 0) == 0
    decreases Abs(a)
  {
    hide Bits;
    if -1 <= a <= 0 {
      SmallAll(a);
    } else {
      Steps(And, a, 0);
      NoBits(a / 2);
    }
  }

  lemma {:induction false} BothAndEither(a: int, b: int)
    ensures Bits(And, a, b) + Bits(Or, a, b) == a + b && Bits(Xor, a, b) == Bits(Or, a, b) - Bits(And, a, b)
    decreases Abs(a) + Abs(b)
  {
    hide Bits;
    if -1 <= a <= 0 && -1 <= b <= 0 {
      SmallBoth(a, b);
    } else {
      Halves(a);
      Halves(b);
      BothAndEither(a / 2, b / 2);
      Steps(And, a, b);
      Steps(Or, a, b);
      Steps(Xor, a, b);
    }
  }

  lemma Halves(a: int)
    ensures Abs(a / 2) <= Abs(a) && (Abs(a / 2) == Abs(a) ==> -1 <= a <= 0)
  {
  }

  lemma SmallBoth(a: int, b: int)
    requires -1 <= a <= 0 && -1 <= b <= 0
    ensures Bits(And, a, b) + Bits(Or, a, b) == a + b && Bits(Xor, a, b) == Bits(Or, a, b) - Bits(And, a, b)
  {
  }

  const DIGITS := "0123456789abcdef"
  const CAPITALS := "0123456789ABCDEF"

  /** Numbers: one digit more behind those there are. */
  lemma NumberLaws(env: Env, sp: string, base: Base, digits: string, k: nat)
    requires AllSpaces(sp) && NumProper(base, digits) && k < BaseOf(base)
    ensures forall c :: c in {DIGITS[k], CAPITALS[k]} ==>
      && Proper(env, Num(base, digits + [c], ""))
      && ValueOf(env, sp, Num(base, digits + [c], "")) == BaseOf(base) * ValueOf(env, sp, Num(base, digits, "")) + k
  {
    hide ValueOf, ParseIfExpression, Print, Digit, Value;
    forall c | c in {DIGITS[k], CAPITALS[k]}
      ensures Proper(env, Num(base, digits + [c], ""))
      ensures ValueOf(env, sp, Num(base, digits + [c], "")) == BaseOf(base) * ValueOf(env, sp, Num(base, digits, "")) + k
    {
      DigitIs(BaseOf(base), k);
      var e, f := Num(base, digits, ""), Num(base, digits + [c], "");
      assert AllDigits(BaseOf(base), digits + [c]);
      assert base.Decimal? ==> (digits + [c])[0] == digits[0];
      ValueIs(env, sp, e);
      ValueIs(env, sp, f);
      LastDigit(BaseOf(base), digits, c);
    }
  }

  lemma LastDigit(base: int, digits: string, c: char)
    ensures Value(base, digits + [c]) == Value(base, digits) * base + Digit(base, c)
  {
    assert (digits + [c])[..|digits|] == digits;
  }

  lemma DigitIs(base: int, k: nat)
    requires (base == 8 || base == 10 || base == 16) && k < base
    ensures Digit(base, DIGITS[k]) == k && Digit(base, CAPITALS[k]) == k
  {
  }

  /** The first digit: none is 0, octal, and the decimal ones begin with one that is not. */
  lemma FirstDigits(env: Env, sp: string, k: nat)
    requires AllSpaces(sp) && 1 <= k < 10
    ensures ValueOf(env, sp, Num(Octal, "", "")) == 0 && ValueOf(env, sp, Num(Decimal, [DIGITS[k]], "")) == k
    ensures forall x :: x in {'x', 'X'} ==> ValueOf(env, sp, Num(Hex(x), "", "")) == 0
  {
    hide ValueOf, ParseIfExpression, Print, Digit, Value;
    ConstantsAre(env, sp);
    DigitIs(10, k);
    assert DIGITS[k] != '0';
    ValueIs(env, sp, Num(Decimal, [DIGITS[k]], ""));
    assert "" + [DIGITS[k]] == [DIGITS[k]];
    LastDigit(10, "", DIGITS[k]);
    NoValue(10);
    NoValue(16);
    forall x | x in {'x', 'X'}
      ensures ValueOf(env, sp, Num(Hex(x), "", "")) == 0
    {
      ValueIs(env, sp, Num(Hex(x), "", ""));
    }
  }
}
