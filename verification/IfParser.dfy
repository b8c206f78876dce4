/**
  The parser of #if expressions.  All its levels are right-recursive: expressions are taken here as the
  trees it sees, printed with the parentheses that makes necessary, and parsed back to their values.
 */
module IfParser {
  // Characters

  predicate IsSpace(c: char) {
    c == ' ' || '\t' <= c <= '\r'
  }

  predicate IsDigit(c: char) {
    '0' <= c <= '9'
  }

  predicate IsAlpha(c: char) {
    'a' <= c <= 'z' || 'A' <= c <= 'Z'
  }

  predicate IsAlnum(c: char) {
    IsAlpha(c) || IsDigit(c)
  }

  predicate IsNameChar(c: char) {
    IsAlnum(c) || c == '_'
  }

  predicate IsNameStart(c: char) {
    IsAlpha(c) || c == '_'
  }

  /** The character s begins with, the NUL at its end if there is none. */
  function First(s: string): char {
    At(s, 0)
  }

  function At(s: string, i: nat): char {
    if i < |s| then s[i] else '\0'
  }

  function Skip(s: string): (t: string)
    ensures |t| <= |s|
  {
    if s != [] && IsSpace(s[0]) then Skip(s[1..]) else s
  }

  // Numbers

  /** The value of a digit, -1 if it is none in the base. */
  function Digit(base: int, c: char): int {
    if base == 8 then if '0' <= c <= '7' then c as int - '0' as int else -1
    else if base == 16 then
      if IsDigit(c) then c as int - '0' as int
      else if 'A' <= c <= 'F' then c as int - ('A' as int - 10)
      else if 'a' <= c <= 'f' then c as int - ('a' as int - 10)
      else -1
    else if IsDigit(c) then c as int - '0' as int else -1
  }

  datatype Result = Fail | Ok(rest: string, val: int)

  /** Digits read on from a number val. */
  function Digits(base: int, s: string, val: int): (r: Result)
    ensures r.Ok? && |r.rest| <= |s|
  {
    if s != [] && Digit(base, s[0]) >= 0 then Digits(base, s[1..], val * base + Digit(base, s[0])) else Ok(s, val)
  }

  predicate IsQualifier(c: char) {
    c == 'U' || c == 'u' || c == 'L' || c == 'l'
  }

  function SkipQualifiers(s: string): (t: string)
    ensures |t| <= |s|
  {
    if s != [] && IsQualifier(s[0]) then SkipQualifiers(s[1..]) else s
  }

  /** A number, which s begins with. */
  function Number(s: string): (r: Result)
    requires IsDigit(First(s))
    ensures r.Ok? && |r.rest| <= |s|
  {
    var r :=
      if First(s) != '0' then Digits(10, s, 0)
      else if At(s, 1) == 'x' || At(s, 1) == 'X' then Digits(16, s[2..], 0)
      else Digits(8, s[1..], 0);
    Ok(SkipQualifiers(r.rest), r.val)
  }

  /** The length of the name s begins with. */
  function NameLen(s: string): (n: nat)
    ensures n <= |s|
  {
    if s != [] && IsNameChar(s[0]) then 1 + NameLen(s[1..]) else 0
  }

  // Operators

  datatype Op = Mul | Div | Mod | Add | Sub | Shl | Shr | Lt | Gt | Le | Ge | Eq | Ne | And | Xor | Or | AndAnd | OrOr

  /** The levels of precedence: 0 is parse_cond, 1 parse_lor and so on up to 10, parse_product, and 11, parse_value. */
  const TOP := 11

  function LevelOf(op: Op): nat {
    match op
    case OrOr => 1
    case AndAnd => 2
    case Or => 3
    case Xor => 4
    case And => 5
    case Eq => 6
    case Ne => 6
    case Lt => 7
    case Gt => 7
    case Le => 7
    case Ge => 7
    case Shl => 8
    case Shr => 8
    case Add => 9
    case Sub => 9
    case Mul => 10
    case Div => 10
    case Mod => 10
  }

  function Spelled(op: Op): string {
    match op
    case OrOr => "||"
    case AndAnd => "&&"
    case Or => "|"
    case Xor => "^"
    case And => "&"
    case Eq => "=="
    case Ne => "!="
    case Lt => "<"
    case Gt => ">"
    case Le => "<="
    case Ge => ">="
    case Shl => "<<"
    case Shr => ">>"
    case Add => "+"
    case Sub => "-"
    case Mul => "*"
    case Div => "/"
    case Mod => "%"
  }

  /** What a level sees behind its left operand: none of its operators, one of n characters, or a mistake. */
  datatype Look = None | Found(op: Op, n: nat) | Mistake

  function LookFor(k: nat, t: string): (l: Look)
    ensures l.Found? ==> 1 <= l.n <= |t|
  {
    var c, d := At(t, 0), At(t, 1);
    if k == 1 then if c != '|' then None else if d != '|' then Mistake else Found(OrOr, 2)
    else if k == 2 then if c != '&' then None else if d != '&' then Mistake else Found(AndAnd, 2)
    else if k == 3 then if c == '|' && d != '|' then Found(Or, 1) else None
    else if k == 4 then if c == '^' then Found(Xor, 1) else None
    else if k == 5 then if c == '&' && d != '&' then Found(And, 1) else None
    else if k == 6 then
      if c == '=' then Found(Eq, if d == '=' then 2 else 1) else if c == '!' && d == '=' then Found(Ne, 2) else None
    else if k == 7 then
      if c == '<' then if d == '=' then Found(Le, 2) else Found(Lt, 1)
      else if c == '>' then if d == '=' then Found(Ge, 2) else Found(Gt, 1)
      else None
    else if k == 8 then if c == '<' && d == '<' then Found(Shl, 2) else if c == '>' && d == '>' then Found(Shr, 2) else None
    else if k == 9 then if c == '+' then Found(Add, 1) else if c == '-' then Found(Sub, 1) else None
    else if k == 10 then if c == '*' then Found(Mul, 1) else if c == '/' then Found(Div, 1) else if c == '%' then Found(Mod, 1) else None
    else None
  }

  function Truth(b: bool): int {
    if b then 1 else 0
  }

  /** C's division, which truncates; by zero it is not defined, and 0 here. */
  function Quotient(a: int, b: int): int {
    if b == 0 then 0 else if (a >= 0) == (b > 0) then Abs(a) / Abs(b) else -(Abs(a) / Abs(b))
  }

  function Abs(a: int): nat {
    if a < 0 then -a else a
  }

  function TwoTo(n: nat): (p: nat)
    ensures p >= 1
  {
    if n == 0 then 1 else 2 * TwoTo(n - 1)
  }

  /** Bit by bit, in two's complement. */
  function Bits(op: Op, a: int, b: int): int
    decreases Abs(a) + Abs(b)
  {
    if -1 <= a <= 0 && -1 <= b <= 0 then -Bit(op, -a, -b)
    else 2 * Bits(op, a / 2, b / 2) + Bit(op, a % 2, b % 2)
  }

  function Bit(op: Op, a: int, b: int): int {
    if op == And then Truth(a == 1 && b == 1) else if op == Or then Truth(a == 1 || b == 1) else Truth(a != b)
  }

  function Apply(op: Op, a: int, b: int): int {
    match op
    case OrOr => Truth(a != 0 || b != 0)
    case AndAnd => Truth(a != 0 && b != 0)
    case Or => Bits(op, a, b)
    case Xor => Bits(op, a, b)
    case And => Bits(op, a, b)
    case Eq => Truth(a == b)
    case Ne => Truth(a != b)
    case Lt => Truth(a < b)
    case Gt => Truth(a > b)
    case Le => Truth(a <= b)
    case Ge => Truth(a >= b)
    case Shl => if b >= 0 then a * TwoTo(b) else 0
    case Shr => if b >= 0 then a / TwoTo(b) else 0
    case Add => a + b
    case Sub => a - b
    case Mul => a * b
    case Div => Quotient(a, b)
    case Mod => a - Quotient(a, b) * b
  }

  // The parser

  /** What names stand for. */
  datatype Env = Env(value: string -> int, defined: string -> bool, hasArgs: string -> bool)

  /** cp begins with the operator "defined". */
  predicate IsDefined(s: string) {
    |s| >= 7 && s[..7] == "defined" && !IsAlnum(At(s, 7))
  }

  function ParseValue(env: Env, s0: string): (r: Result)
    ensures r.Ok? ==> |r.rest| <= |s0|
    decreases |s0|, 0
  {
    var s := Skip(s0);
    if s == [] then Ok(s, 0)
    else if s[0] == '(' then
      var r := ParseLevel(env, 0, s[1..]);
      if r.Fail? then Fail
      else
        var t := Skip(r.rest);
        if First(t) != ')' then Fail else Ok(t[1..], r.val)
    else if s[0] == '!' || s[0] == '-' || s[0] == '+' || s[0] == '~' then
      var r := ParseValue(env, s[1..]);
      if r.Fail? then Fail else Ok(r.rest, Unary(s[0], r.val))
    else if IsDefined(s) then ParseDefined(env, s[7..])
    else if IsDigit(s[0]) then Number(s)
    else if IsNameStart(s[0]) then
      var n := NameLen(s);
      if env.hasArgs(s[..n]) then Fail else Ok(s[n..], env.value(s[..n]))
    else Fail
  }

  function Unary(c: char, v: int): int {
    if c == '!' then Truth(v == 0) else if c == '-' then -v else if c == '~' then -v - 1 else v
  }

  /** What follows "defined". */
  function ParseDefined(env: Env, s0: string): (r: Result)
    ensures r.Ok? ==> |r.rest| <= |s0|
  {
    var s := Skip(s0);
    var paren := First(s) == '(';
    var t := Skip(if paren then s[1..] else s);
    if !IsNameStart(First(t)) then Fail
    else
      var n := NameLen(t);
      var u := Skip(t[n..]);
      if paren && First(u) != ')' then Fail
      else Ok(if paren then u[1..] else u, Truth(env.defined(t[..n])))
  }

  function ParseLevel(env: Env, k: nat, s: string): (r: Result)
    requires k <= TOP
    ensures r.Ok? ==> |r.rest| <= |s|
    decreases |s|, TOP + 1 - k
  {
    if k == TOP then ParseValue(env, s)
    else
      var r := ParseLevel(env, k + 1, s);
      if r.Fail? then Fail
      else
        var t := Skip(r.rest);
        if k == 0 then ParseCond(env, t, r.val)
        else
          var l := LookFor(k, t);
          match l
          case None => Ok(t, r.val)
          case Mistake => Fail
          case Found(op, n) =>
            var right := ParseLevel(env, k, t[n..]);
            if right.Fail? then Fail else Ok(right.rest, Apply(op, r.val, right.val))
  }

  /** What follows the condition of a conditional expression. */
  function ParseCond(env: Env, t: string, val: int): (r: Result)
    ensures r.Ok? ==> |r.rest| <= |t|
    decreases |t|, TOP
  {
    if First(t) != '?' then Ok(t, val)
    else
      var a := ParseLevel(env, 0, t[1..]);
      if a.Fail? then Fail
      else
        var u := Skip(a.rest);
        if First(u) != ':' then Fail
        else
          var b := ParseLevel(env, 0, u[1..]);
          if b.Fail? then Fail else Ok(b.rest, if val != 0 then a.val else b.val)
  }

  function ParseIfExpression(env: Env, s: string): Result {
    ParseLevel(env, 0, s)
  }

  // Expressions and how they are printed

  datatype Base = Decimal | Octal | Hex(x: char)

  datatype Expr =
    | Num(base: Base, digits: string, qualifiers: string)
    | Var(name: string)
    | Defined(name: string, paren: bool)
    | Prefix(c: char, e: Expr)
    | Binary(op: Op, l: Expr, r: Expr)
    | Cond(test: Expr, yes: Expr, no: Expr)

  /** The digits of a number and its qualifiers, and names that are not taken for the operator "defined". */
  predicate Proper(env: Env, e: Expr) {
    match e
    case Num(base, digits, qualifiers) => NumProper(base, digits) && AllQualifiers(qualifiers)
    case Var(name) => NameProper(name) && !IsDefined(name) && !env.hasArgs(name)
    case Defined(name, _) => NameProper(name)
    case Prefix(c, a) => (c == '!' || c == '-' || c == '+' || c == '~') && Proper(env, a)
    case Binary(_, l, r) => Proper(env, l) && Proper(env, r)
    case Cond(a, b, c) => Proper(env, a) && Proper(env, b) && Proper(env, c)
  }

  predicate NumProper(base: Base, digits: string) {
    match base
    case Decimal => digits != [] && digits[0] != '0' && AllDigits(10, digits)
    case Octal => AllDigits(8, digits)
    case Hex(x) => (x == 'x' || x == 'X') && AllDigits(16, digits)
  }

  predicate AllDigits(base: int, s: string) {
    forall i :: 0 <= i < |s| ==> Digit(base, s[i]) >= 0
  }

  predicate AllQualifiers(s: string) {
    forall i :: 0 <= i < |s| ==> IsQualifier(s[i])
  }

  predicate NameProper(s: string) {
    s != [] && IsNameStart(s[0]) && forall i :: 0 <= i < |s| ==> IsNameChar(s[i])
  }

  function Eval(env: Env, e: Expr): int {
    match e
    case Num(base, digits, _) => Value(BaseOf(base), digits)
    case Var(name) => env.value(name)
    case Defined(name, _) => Truth(env.defined(name))
    case Prefix(c, a) => Unary(c, Eval(env, a))
    case Binary(op, l, r) => Apply(op, Eval(env, l), Eval(env, r))
    case Cond(a, b, c) => if Eval(env, a) != 0 then Eval(env, b) else Eval(env, c)
  }

  /** The number written as these digits: the last one counts least. */
  function Value(base: int, digits: string): int {
    if digits == [] then 0 else Value(base, digits[..|digits| - 1]) * base + Digit(base, digits[|digits| - 1])
  }

  function LevelOfExpr(e: Expr): nat {
    if e.Cond? then 0 else if e.Binary? then LevelOf(e.op) else TOP
  }

  function SpellNum(base: Base, digits: string): string {
    match base
    case Decimal => digits
    case Octal => "0" + digits
    case Hex(x) => ['0', x] + digits
  }

  /** An expression with the spaces sp before every token, and as few parentheses as the parser allows. */
  function Raw(sp: string, e: Expr): string
    decreases e, 0
  {
    match e
    case Num(base, digits, qualifiers) => sp + (SpellNum(base, digits) + qualifiers)
    case Var(name) => sp + name
    case Defined(name, paren) =>
      sp + ("defined" + if paren then sp + ("(" + (sp + (name + (sp + ")")))) else " " + (sp + name))
    case Prefix(c, a) => sp + ([c] + Print(sp, TOP, a))
    case Binary(op, l, r) => Print(sp, LevelOf(op) + 1, l) + (sp + (Spelled(op) + Print(sp, LevelOf(op), r)))
    case Cond(a, b, c) => Print(sp, 1, a) + (sp + ("?" + (Print(sp, 0, b) + (sp + (":" + Print(sp, 0, c))))))
  }

  /** An expression where one of level k is called for. */
  function Print(sp: string, k: nat, e: Expr): string
    decreases e, 1
  {
    if LevelOfExpr(e) >= k then Raw(sp, e) else sp + ("(" + (Raw(sp, e) + (sp + ")")))
  }

  predicate AllSpaces(s: string) {
    forall i :: 0 <= i < |s| ==> IsSpace(s[i])
  }

  /** What may follow an expression of level k: nothing that would be taken for a part of it. */
  predicate Follows(k: nat, rest: string) {
    && (rest != [] ==> !IsNameChar(rest[0]))
    && (forall j :: k <= j < TOP && j >= 1 ==> LookFor(j, Skip(rest)) == None)
    && (k == 0 ==> First(Skip(rest)) != '?')
  }

  // Small facts about texts

  lemma Associate(a: string, b: string, c: string)
    ensures a + b + c == a + (b + c)
  {
  }

  lemma {:induction false} SkipSpaces(sp: string, s: string)
    requires AllSpaces(sp)
    ensures Skip(sp + s) == Skip(s)
    decreases |sp|
  {
    if sp == [] {
      assert sp + s == s;
    } else {
      assert (sp + s)[1..] == sp[1..] + s;
      SkipSpaces(sp[1..], s);
    }
  }

  lemma {:induction false} SkipTwice(s: string)
    ensures Skip(Skip(s)) == Skip(s)
    decreases |s|
  {
    if s != [] && IsSpace(s[0]) { SkipTwice(s[1..]); }
  }

  lemma SkipNone(s: string)
    requires s != [] ==> !IsSpace(s[0])
    ensures Skip(s) == s
  {
  }

  lemma Ahead(c: char, s: string)
    ensures ([c] + s)[0] == c && ([c] + s)[1..] == s
  {
  }

  lemma {:induction false} DigitsRead(base: int, d: string, rest: string, done: string)
    requires AllDigits(base, d) && (rest != [] ==> Digit(base, rest[0]) < 0)
    ensures Digits(base, d + rest, Value(base, done)) == Ok(rest, Value(base, done + d))
    decreases |d|
  {
    hide Digit;
    if d == [] {
      assert d + rest == rest && done + d == done;
    } else {
      assert (d + rest)[1..] == d[1..] + rest && (d + rest)[0] == d[0];
      var more := done + [d[0]];
      assert more[..|more| - 1] == done;
      DigitsRead(base, d[1..], rest, more);
      assert more + d[1..] == done + d;
    }
  }

  lemma {:induction false} QualifiersRead(q: string, rest: string)
    requires AllQualifiers(q) && (rest != [] ==> !IsQualifier(rest[0]))
    ensures SkipQualifiers(q + rest) == rest
    decreases |q|
  {
    hide IsQualifier;
    if q == [] {
      assert q + rest == rest;
    } else {
      assert (q + rest)[1..] == q[1..] + rest && (q + rest)[0] == q[0];
      QualifiersRead(q[1..], rest);
    }
  }

  lemma NumberEnds(base: int, q: string, rest: string)
    requires AllQualifiers(q) && (rest != [] ==> !IsNameChar(rest[0]))
    ensures q + rest != [] ==> Digit(base, (q + rest)[0]) < 0
    ensures rest != [] ==> !IsQualifier(rest[0])
  {
    if q != [] { assert (q + rest)[0] == q[0]; } else { assert q + rest == rest; }
  }

  lemma NumberTail(base: int, digits: string, q: string, rest: string)
    requires AllDigits(base, digits) && AllQualifiers(q) && (rest != [] ==> !IsNameChar(rest[0]))
    ensures Digits(base, digits + (q + rest), 0) == Ok(q + rest, Value(base, digits)) && SkipQualifiers(q + rest) == rest
  {
    hide Digits, Digit, SkipQualifiers, AllDigits, AllQualifiers, IsQualifier;
    NumberEnds(base, q, rest);
    DigitsRead(base, digits, q + rest, "");
    NoValue(base);
    assert "" + digits == digits;
    QualifiersRead(q, rest);
  }

  function BaseOf(base: Base): int {
    if base.Decimal? then 10 else if base.Octal? then 8 else 16
  }

  lemma NumberRead(base: Base, digits: string, q: string, rest: string)
    requires NumProper(base, digits) && AllQualifiers(q) && (rest != [] ==> !IsNameChar(rest[0]))
    ensures var s := SpellNum(base, digits) + (q + rest);
      s != [] && IsDigit(s[0]) && Number(s) == Ok(rest, Value(BaseOf(base), digits))
  {
    hide Digits, Digit, SkipQualifiers, AllDigits, AllQualifiers, IsQualifier, Value;
    NumberTail(BaseOf(base), digits, q, rest);
    match base
    case Decimal =>
      FirstDigit(10, digits);
      assert "" + digits == digits;
      assert (digits + (q + rest))[0] == digits[0];
    case Octal =>
      Associate(['0'], digits, q + rest);
      Ahead('0', digits + (q + rest));
      OctalFirst(digits, q, rest);
    case Hex(x) =>
      HexAhead(x, digits + (q + rest));
      Associate(['0', x], digits, q + rest);
  }

  lemma HexAhead(x: char, s: string)
    ensures (['0', x] + s)[0] == '0' && (['0', x] + s)[1] == x && (['0', x] + s)[2..] == s
  {
  }

  lemma NoValue(base: int)
    ensures Value(base, "") == 0
  {
  }

  lemma FirstDigit(base: int, d: string)
    requires d != [] && AllDigits(base, d) && base == 10
    ensures IsDigit(d[0])
  {
  }

  /** An octal number is not taken for a hexadecimal one. */
  lemma OctalFirst(d: string, q: string, rest: string)
    requires AllDigits(8, d) && AllQualifiers(q) && (rest != [] ==> !IsNameChar(rest[0]))
    ensures At(d + (q + rest), 0) != 'x' && At(d + (q + rest), 0) != 'X'
  {
    var s := d + (q + rest);
    if d != [] {
      assert s[0] == d[0];
    } else if q != [] {
      assert s[0] == q[0];
    } else {
      assert s == rest;
    }
  }

  lemma {:induction false} NameRead(n: string, rest: string)
    requires (forall i :: 0 <= i < |n| ==> IsNameChar(n[i])) && (rest != [] ==> !IsNameChar(rest[0]))
    ensures NameLen(n + rest) == |n| && (n + rest)[..|n|] == n && (n + rest)[|n|..] == rest
    decreases |n|
  {
    hide IsNameChar;
    if n == [] {
      assert n + rest == rest;
    } else {
      assert (n + rest)[1..] == n[1..] + rest && (n + rest)[0] == n[0];
      NameRead(n[1..], rest);
    }
  }

  /** A name that is not the operator does not become it by what follows it. */
  lemma StillNotDefined(n: string, rest: string)
    requires !IsDefined(n) && (forall i :: 0 <= i < |n| ==> IsNameChar(n[i])) && (rest != [] ==> !IsNameChar(rest[0]))
    ensures !IsDefined(n + rest)
  {
    var s := n + rest;
    if |n| >= 7 {
      assert s[..7] == n[..7];
      if |n| > 7 { assert s[7] == n[7]; }
    } else if |s| >= 7 {
      assert s[|n|] == rest[0];
      assert forall i :: 0 <= i < 7 ==> IsNameChar("defined"[i]);
    }
  }

  // Round trip

  /** Level k parses s to v and leaves rest; only parse_value may leave the spaces before it. */
  predicate Parsed(env: Env, k: nat, s: string, rest: string, v: int)
    requires k <= TOP
  {
    var r := ParseLevel(env, k, s);
    r.Ok? && r.val == v && Skip(r.rest) == Skip(rest) && (k < TOP ==> r.rest == Skip(rest))
  }

  /** Levels that find no operator pass on what the higher ones have found. */
  lemma {:induction false} Lift(env: Env, k: nat, l: nat, s: string, rest: string, v: int)
    requires k <= l <= TOP && Parsed(env, l, s, rest, v) && Follows(k, rest)
    ensures Parsed(env, k, s, rest, v)
    decreases l - k
  {
    hide Skip, LookFor, ParseLevel;
    if k < l {
      assert Follows(k + 1, rest);
      Lift(env, k + 1, l, s, rest, v);
      SkipTwice(rest);
      PassOn(env, k, s, ParseLevel(env, k + 1, s).rest, v);
    }
  }

  lemma PassOn(env: Env, k: nat, s: string, r: string, v: int)
    requires k < TOP && ParseLevel(env, k + 1, s) == Ok(r, v)
    requires if k == 0 then First(Skip(r)) != '?' else LookFor(k, Skip(r)) == None
    ensures ParseLevel(env, k, s) == Ok(Skip(r), v)
  {
    hide Skip, LookFor, ParseValue;
  }

  /** Characters an expression may begin with. */
  predicate BeginsOperand(c: char) {
    IsSpace(c) || IsNameChar(c) || c == '(' || c == '!' || c == '-' || c == '+' || c == '~'
  }

  lemma FirstOf(sp: string, c: char, t: string, rest: string)
    requires AllSpaces(sp) && BeginsOperand(c)
    ensures var s := sp + ([c] + t) + rest; s != [] && BeginsOperand(s[0])
  {
    var s := sp + ([c] + t) + rest;
    if sp != [] { assert s[0] == sp[0]; } else { assert s[0] == c; }
  }

  lemma {:induction false} PrintBegins(sp: string, k: nat, env: Env, e: Expr, rest: string)
    requires AllSpaces(sp) && Proper(env, e)
    ensures var s := Print(sp, k, e) + rest; s != [] && BeginsOperand(s[0])
    decreases e, 1
  {
    hide IsSpace, IsNameChar;
    if LevelOfExpr(e) >= k {
      RawBegins(sp, env, e, rest);
    } else {
      FirstOf(sp, '(', Raw(sp, e) + (sp + ")"), rest);
    }
  }

  lemma {:induction false} RawBegins(sp: string, env: Env, e: Expr, rest: string)
    requires AllSpaces(sp) && Proper(env, e)
    ensures var s := Raw(sp, e) + rest; s != [] && BeginsOperand(s[0])
    decreases e, 0
  {
    hide Print, AllSpaces;
    match e
    case Num(base, digits, q) =>
      var t := SpellNum(base, digits) + q;
      NumBegins(base, digits, q);
      assert t == [t[0]] + t[1..];
      FirstOf(sp, t[0], t[1..], rest);
    case Var(name) =>
      assert name == [name[0]] + name[1..];
      FirstOf(sp, name[0], name[1..], rest);
    case Defined(name, paren) =>
      var u := if paren then sp + ("(" + (sp + (name + (sp + ")")))) else " " + (sp + name);
      assert "defined" + u == ['d'] + ("efined" + u);
      FirstOf(sp, 'd', "efined" + u, rest);
    case Prefix(c, a) => FirstOf(sp, c, Print(sp, TOP, a), rest);
    case Binary(op, l, r) =>
      var u := sp + (Spelled(op) + Print(sp, LevelOf(op), r));
      PrintBegins(sp, LevelOf(op) + 1, env, l, u + rest);
      Associate(Print(sp, LevelOf(op) + 1, l), u, rest);
    case Cond(a, b, c) =>
      var u := sp + ("?" + (Print(sp, 0, b) + (sp + (":" + Print(sp, 0, c)))));
      PrintBegins(sp, 1, env, a, u + rest);
      Associate(Print(sp, 1, a), u, rest);
  }

  lemma NumBegins(base: Base, digits: string, q: string)
    requires NumProper(base, digits)
    ensures var t := SpellNum(base, digits) + q; t != [] && IsNameChar(t[0])
  {
    if base.Decimal? { FirstDigit(10, digits); }
  }

  /** An operator is seen for what it is, by its own level and by none above. */
  lemma OperatorSeen(op: Op, t: string)
    requires t != [] && BeginsOperand(t[0])
    ensures LookFor(LevelOf(op), Spelled(op) + t) == Found(op, |Spelled(op)|)
    ensures forall j :: LevelOf(op) < j < TOP ==> LookFor(j, Spelled(op) + t) == None
    ensures Skip(Spelled(op) + t) == Spelled(op) + t && (Spelled(op) + t)[|Spelled(op)|..] == t
    ensures !IsNameChar(Spelled(op)[0]) && Spelled(op)[0] != '?'
  {
    hide LookFor;
    var s := Spelled(op) + t;
    assert At(s, 0) == Spelled(op)[0];
    assert At(s, 1) == if |Spelled(op)| > 1 then Spelled(op)[1] else t[0];
    SkipNone(s);
    SeenAt(op, s);
    forall j | LevelOf(op) < j < TOP
      ensures LookFor(j, s) == None
    {
      NotSeenAbove(op, s, j);
    }
  }

  lemma SeenAt(op: Op, s: string)
    requires |s| >= 2 && s[0] == Spelled(op)[0]
    requires if |Spelled(op)| > 1 then s[1] == Spelled(op)[1] else BeginsOperand(s[1])
    ensures LookFor(LevelOf(op), s) == Found(op, |Spelled(op)|)
  {
  }

  lemma NotSeenAbove(op: Op, s: string, j: nat)
    requires |s| >= 2 && s[0] == Spelled(op)[0] && LevelOf(op) < j < TOP
    requires if |Spelled(op)| > 1 then s[1] == Spelled(op)[1] else BeginsOperand(s[1])
    ensures LookFor(j, s) == None
  {
  }

  /** The left operand of an operator is followed by what may follow it. */
  lemma OperatorFollows(sp: string, op: Op, t: string)
    requires AllSpaces(sp) && t != [] && BeginsOperand(t[0])
    ensures Follows(LevelOf(op) + 1, sp + (Spelled(op) + t))
    ensures Skip(sp + (Spelled(op) + t)) == Spelled(op) + t
  {
    hide LookFor, Skip;
    OperatorSeen(op, t);
    SkipSpaces(sp, Spelled(op) + t);
    SpaceFirst(sp, Spelled(op) + t);
  }

  lemma SpaceFirst(sp: string, s: string)
    requires AllSpaces(sp) && s != [] && !IsNameChar(s[0])
    ensures (sp + s)[0] == s[0] || IsSpace((sp + s)[0])
    ensures !IsNameChar((sp + s)[0])
  {
    if sp != [] { assert (sp + s)[0] == sp[0]; } else { assert sp + s == s; }
  }

  /** So is what stands before a parenthesis, a question mark or a colon. */
  lemma MarkFollows(sp: string, c: char, t: string)
    requires AllSpaces(sp) && (c == ')' || c == ':' || c == '?')
    ensures Follows(if c == '?' then 1 else 0, sp + ([c] + t))
    ensures Skip(sp + ([c] + t)) == [c] + t
  {
    SkipSpaces(sp, [c] + t);
    SkipNone([c] + t);
    SpaceFirst(sp, [c] + t);
  }

  lemma FollowsMore(k: nat, l: nat, rest: string)
    requires Follows(k, rest) && k <= l
    ensures Follows(l, rest)
  {
    hide LookFor, Skip;
  }

  lemma ValueSkips(env: Env, sp: string, s: string)
    requires AllSpaces(sp)
    ensures ParseValue(env, sp + s) == ParseValue(env, s)
  {
    hide Skip, ParseLevel, ParseDefined, Number, NameLen;
    SkipSpaces(sp, s);
    SkipTwice(s);
  }

  /** Parsing what an expression is printed as gives its value, and leaves what follows. */
  lemma {:induction false} RoundTrip(env: Env, sp: string, k: nat, e: Expr, rest: string)
    requires k <= TOP && AllSpaces(sp) && Proper(env, e) && Follows(k, rest)
    ensures Parsed(env, k, Print(sp, k, e) + rest, rest, Eval(env, e))
    decreases e, 3
  {
    hide Skip, LookFor, ParseLevel, ParseValue, Raw, Eval, Follows, AllSpaces, Parsed;
    var l := LevelOfExpr(e);
    if l >= k {
      FollowsMore(k, l, rest);
      RawRoundTrip(env, sp, e, rest);
      Lift(env, k, l, Raw(sp, e) + rest, rest, Eval(env, e));
    } else {
      InParentheses(env, sp, e, rest);
      FollowsMore(k, TOP, rest);
      TopParsed(env, Print(sp, k, e) + rest, rest, rest, Eval(env, e));
      Lift(env, k, TOP, Print(sp, k, e) + rest, rest, Eval(env, e));
    }
  }

  lemma TopParsed(env: Env, s: string, r: string, rest: string, v: int)
    requires ParseValue(env, s) == Ok(r, v) && Skip(r) == Skip(rest)
    ensures Parsed(env, TOP, s, rest, v)
  {
    hide ParseValue, Skip;
  }

  lemma {:induction false} InParentheses(env: Env, sp: string, e: Expr, rest: string)
    requires AllSpaces(sp) && Proper(env, e) && LevelOfExpr(e) < TOP
    ensures ParseValue(env, sp + ("(" + (Raw(sp, e) + (sp + ")"))) + rest) == Ok(rest, Eval(env, e))
    decreases e, 2
  {
    hide Skip, LookFor, ParseLevel, Raw, Eval, Follows, AllSpaces, ParseDefined, Number, NameLen;
    var end := sp + ([')'] + rest);
    var s := Raw(sp, e) + end;
    MarkFollows(sp, ')', rest);
    SkipTwice(end);
    FollowsMore(0, LevelOfExpr(e), end);
    RawRoundTrip(env, sp, e, end);
    Lift(env, 0, LevelOfExpr(e), s, end, Eval(env, e));
    assert sp + ("(" + (Raw(sp, e) + (sp + ")"))) + rest == sp + (['('] + s);
    ValueSkips(env, sp, ['('] + s);
    Ahead('(', s);
    Ahead(')', rest);
    ParenValue(env, s, Skip(end), rest, Eval(env, e));
  }

  lemma ParenValue(env: Env, s: string, r: string, rest: string, v: int)
    requires ParseLevel(env, 0, s) == Ok(r, v) && Skip(r) == [')'] + rest
    ensures ParseValue(env, ['('] + s) == Ok(rest, v)
  {
    hide ParseLevel, ParseDefined, Number, NameLen;
    Ahead('(', s);
    Ahead(')', rest);
    SkipNone(['('] + s);
  }

  lemma NumValue(env: Env, base: Base, digits: string, q: string, rest: string)
    requires NumProper(base, digits) && AllQualifiers(q) && (rest != [] ==> !IsNameChar(rest[0]))
    ensures ParseValue(env, SpellNum(base, digits) + (q + rest)) == Ok(rest, Value(BaseOf(base), digits))
  {
    hide ParseLevel, ParseDefined, Number, NameLen, SpellNum, Value;
    NumberRead(base, digits, q, rest);
    SkipNone(SpellNum(base, digits) + (q + rest));
  }

  lemma VarValue(env: Env, name: string, rest: string)
    requires NameProper(name) && !IsDefined(name) && !env.hasArgs(name) && (rest != [] ==> !IsNameChar(rest[0]))
    ensures ParseValue(env, name + rest) == Ok(rest, env.value(name))
  {
    hide ParseLevel, ParseDefined, Number, NameLen, IsDefined;
    NameRead(name, rest);
    StillNotDefined(name, rest);
    assert (name + rest)[0] == name[0];
    SkipNone(name + rest);
  }

  /** The operator "defined" and the name it is applied to. */
  lemma DefinedName(env: Env, sp: string, name: string, paren: bool, rest: string)
    requires AllSpaces(sp) && NameProper(name) && (rest != [] ==> !IsNameChar(rest[0]))
    ensures ParseDefined(env, if paren then sp + (['('] + (sp + (name + (sp + ([')'] + rest))))) else [' '] + (sp + (name + rest)))
      == Ok(if paren then rest else Skip(rest), Truth(env.defined(name)))
  {
    hide NameLen, AllSpaces;
    var end := if paren then sp + ([')'] + rest) else rest;
    if paren {
      MarkFollows(sp, ')', rest);
      SkipSpaces(sp, ['('] + (sp + (name + end)));
      SkipNone(['('] + (sp + (name + end)));
      Ahead('(', sp + (name + end));
      Ahead(')', rest);
    } else {
      SkipSpaces(sp, name + end);
      SkipBlank(sp + (name + end));
      SkipTwice(sp + (name + end));
    }
    NameRead(name, end);
    SkipSpaces(sp, name + end);
    assert (name + end)[0] == name[0];
    SkipNone(name + end);
  }

  lemma SkipBlank(s: string)
    ensures Skip([' '] + s) == Skip(s)
  {
    Ahead(' ', s);
  }

  lemma DefinedValue(env: Env, u: string)
    requires u != [] && !IsAlnum(u[0])
    ensures ParseValue(env, "defined" + u) == ParseDefined(env, u)
  {
    hide ParseLevel, ParseDefined, Number, NameLen;
    var s := "defined" + u;
    assert s[..7] == "defined" && s[7..] == u && s[7] == u[0];
    SkipNone(s);
  }

  lemma PrefixValue(env: Env, c: char, t: string, rest: string, v: int)
    requires c == '!' || c == '-' || c == '+' || c == '~'
    requires ParseValue(env, t) == Ok(rest, v)
    ensures ParseValue(env, [c] + t) == Ok(rest, Unary(c, v))
  {
    hide ParseLevel, ParseDefined, Number, NameLen;
    Ahead(c, t);
    SkipNone([c] + t);
  }

  lemma BinaryLevel(env: Env, op: Op, s: string, r: string, v: int, t: string, right: string, w: int)
    requires ParseLevel(env, LevelOf(op) + 1, s) == Ok(r, v) && Skip(r) == Spelled(op) + t
    requires t != [] && BeginsOperand(t[0]) && ParseLevel(env, LevelOf(op), t) == Ok(right, w)
    ensures ParseLevel(env, LevelOf(op), s) == Ok(right, Apply(op, v, w))
  {
    hide Skip, LookFor, ParseValue, ParseCond, Apply, Spelled, LevelOf;
    OperatorSeen(op, t);
    OpLevel(op);
  }

  lemma OpLevel(op: Op)
    ensures 1 <= LevelOf(op) < TOP
  {
  }

  lemma CondLevel(env: Env, s: string, r: string, v: int, t: string, r1: string, a: int, u: string, r2: string, b: int)
    requires ParseLevel(env, 1, s) == Ok(r, v) && Skip(r) == ['?'] + t
    requires ParseLevel(env, 0, t) == Ok(r1, a) && Skip(r1) == [':'] + u
    requires ParseLevel(env, 0, u) == Ok(r2, b)
    ensures ParseLevel(env, 0, s) == Ok(r2, if v != 0 then a else b)
  {
    hide Skip, LookFor, ParseValue;
    Ahead('?', t);
    Ahead(':', u);
  }

  lemma {:induction false} RawRoundTrip(env: Env, sp: string, e: Expr, rest: string)
    requires AllSpaces(sp) && Proper(env, e) && Follows(LevelOfExpr(e), rest)
    ensures Parsed(env, LevelOfExpr(e), Raw(sp, e) + rest, rest, Eval(env, e))
    decreases e, 1
  {
    hide Skip, LookFor, ParseLevel, ParseValue, Print, AllSpaces, NumProper, AllQualifiers, NameProper, IsDefined, ParseDefined,
      SpellNum, Value, Apply, Unary, LevelOf, Spelled, Parsed;
    match e
    case Num(base, digits, q) =>
      Associate(sp, SpellNum(base, digits) + q, rest);
      Associate(SpellNum(base, digits), q, rest);
      ValueSkips(env, sp, SpellNum(base, digits) + (q + rest));
      NumValue(env, base, digits, q, rest);
      TopParsed(env, Raw(sp, e) + rest, rest, rest, Eval(env, e));
    case Var(name) =>
      Associate(sp, name, rest);
      ValueSkips(env, sp, name + rest);
      VarValue(env, name, rest);
      TopParsed(env, Raw(sp, e) + rest, rest, rest, Eval(env, e));
    case Defined(name, paren) =>
      DefinedText(sp, name, paren, rest);
      var u := if paren then sp + (['('] + (sp + (name + (sp + ([')'] + rest))))) else [' '] + (sp + (name + rest));
      ValueSkips(env, sp, "defined" + u);
      DefinedName(env, sp, name, paren, rest);
      if paren { SpaceFirst(sp, ['('] + (sp + (name + (sp + ([')'] + rest))))); }
      DefinedValue(env, u);
      SkipTwice(rest);
      TopParsed(env, Raw(sp, e) + rest, if paren then rest else Skip(rest), rest, Eval(env, e));
    case Prefix(c, a) =>
      var t := Print(sp, TOP, a) + rest;
      RoundTrip(env, sp, TOP, a, rest);
      var r := TopLeaves(env, t, rest, Eval(env, a));
      Associate(sp, [c] + Print(sp, TOP, a), rest);
      Associate([c], Print(sp, TOP, a), rest);
      ValueSkips(env, sp, [c] + t);
      PrefixValue(env, c, t, r, Eval(env, a));
      TopParsed(env, Raw(sp, e) + rest, r, rest, Eval(env, e));
    case Binary(op, l, r) =>
      BinaryRoundTrip(env, sp, op, l, r, rest);
    case Cond(a, b, c) =>
      CondRoundTrip(env, sp, a, b, c, rest);
  }

  lemma {:induction false} BinaryRoundTrip(env: Env, sp: string, op: Op, l: Expr, r: Expr, rest: string)
    requires AllSpaces(sp) && Proper(env, l) && Proper(env, r) && Follows(LevelOf(op), rest)
    ensures LevelOf(op) < TOP && Parsed(env, LevelOf(op), Raw(sp, Binary(op, l, r)) + rest, rest, Apply(op, Eval(env, l), Eval(env, r)))
    decreases Binary(op, l, r), 0
  {
    hide Skip, LookFor, ParseLevel, Print, AllSpaces, Apply, LevelOf, Spelled, Follows, Proper, BeginsOperand;
    OpLevel(op);
    var right := Print(sp, LevelOf(op), r);
    var t := right + rest;
    PrintBegins(sp, LevelOf(op), env, r, rest);
    var mid := sp + (Spelled(op) + t);
    var s := Print(sp, LevelOf(op) + 1, l) + mid;
    Associate(Print(sp, LevelOf(op) + 1, l), sp + (Spelled(op) + right), rest);
    Associate(sp, Spelled(op) + right, rest);
    Associate(Spelled(op), right, rest);
    OperatorFollows(sp, op, t);
    RoundTrip(env, sp, LevelOf(op) + 1, l, mid);
    RoundTrip(env, sp, LevelOf(op), r, rest);
    BinaryLevel(env, op, s, ParseLevel(env, LevelOf(op) + 1, s).rest, Eval(env, l), t, Skip(rest), Eval(env, r));
  }

  lemma {:induction false} CondRoundTrip(env: Env, sp: string, a: Expr, b: Expr, c: Expr, rest: string)
    requires AllSpaces(sp) && Proper(env, a) && Proper(env, b) && Proper(env, c) && Follows(0, rest)
    ensures Parsed(env, 0, Raw(sp, Cond(a, b, c)) + rest, rest, if Eval(env, a) != 0 then Eval(env, b) else Eval(env, c))
    decreases Cond(a, b, c), 0
  {
    hide Skip, LookFor, ParseLevel, Print, AllSpaces, Follows, Proper;
    var pb, pc := Print(sp, 0, b), Print(sp, 0, c);
    var u := pc + rest;
    var mid2 := sp + ([':'] + u);
    var t := pb + mid2;
    var mid1 := sp + (['?'] + t);
    var s := Print(sp, 1, a) + mid1;
    CondText(sp, Print(sp, 1, a), pb, pc, rest);
    MarkFollows(sp, '?', t);
    MarkFollows(sp, ':', u);
    RoundTrip(env, sp, 1, a, mid1);
    RoundTrip(env, sp, 0, b, mid2);
    RoundTrip(env, sp, 0, c, rest);
    SkipTwice(rest);
    CondLevel(env, s, ParseLevel(env, 1, s).rest, Eval(env, a), t, ParseLevel(env, 0, t).rest, Eval(env, b), u, Skip(rest), Eval(env, c));
  }

  lemma TopLeaves(env: Env, s: string, rest: string, v: int) returns (r: string)
    requires Parsed(env, TOP, s, rest, v)
    ensures ParseValue(env, s) == Ok(r, v) && Skip(r) == Skip(rest)
  {
    hide ParseValue, Skip;
    r := ParseValue(env, s).rest;
  }

  lemma DefinedText(sp: string, name: string, paren: bool, rest: string)
    ensures sp + ("defined" + (if paren then sp + ("(" + (sp + (name + (sp + ")")))) else " " + (sp + name))) + rest
      == sp + ("defined" + if paren then sp + (['('] + (sp + (name + (sp + ([')'] + rest))))) else [' '] + (sp + (name + rest)))
  {
    var u := if paren then sp + ("(" + (sp + (name + (sp + ")")))) else " " + (sp + name);
    Associate(sp, "defined" + u, rest);
    Associate("defined", u, rest);
    if paren {
      Associate(sp, "(" + (sp + (name + (sp + ")"))), rest);
      Associate("(", sp + (name + (sp + ")")), rest);
      Associate(sp, name + (sp + ")"), rest);
      Associate(name, sp + ")", rest);
      Associate(sp, ")", rest);
    } else {
      Associate(" ", sp + name, rest);
      Associate(sp, name, rest);
    }
  }

  /** A printed expression, and spaces after it, is read to its end and to its value. */
  lemma ParsesBack(env: Env, sp: string, e: Expr, end: string)
    requires AllSpaces(sp) && AllSpaces(end) && Proper(env, e)
    ensures ParseIfExpression(env, Print(sp, 0, e) + end) == Ok("", Eval(env, e))
  {
    hide Skip, ParseLevel, Print, Eval, Proper;
    NothingFollows(end);
    RoundTrip(env, sp, 0, e, end);
  }

  lemma NothingFollows(end: string)
    requires AllSpaces(end)
    ensures Follows(0, end) && Skip(end) == ""
  {
    SkipSpaces(end, "");
    assert end + "" == end;
  }

  lemma CondText(sp: string, a: string, b: string, c: string, rest: string)
    ensures a + (sp + ("?" + (b + (sp + (":" + c))))) + rest == a + (sp + (['?'] + (b + (sp + ([':'] + (c + rest))))))
  {
    Associate(a, sp + ("?" + (b + (sp + (":" + c)))), rest);
    Associate(sp, "?" + (b + (sp + (":" + c))), rest);
    Associate("?", b + (sp + (":" + c)), rest);
    Associate(b, sp + (":" + c), rest);
    Associate(sp, ":" + c, rest);
    Associate(":", c, rest);
  }

  /** Operators of one level group to the right, other than in C: 1-1-1 is 1. */
  lemma GroupsToTheRight(env: Env)
    ensures ParseIfExpression(env, "1-1-1") == Ok("", 1)
  {
    hide ParseIfExpression, Print, Raw, Eval, Proper;
    var one := Num(Decimal, "1", "");
    OneIsPrinted(one);
    OneIsOne(env);
    Subtraction(env, 9, one, one);
    Subtraction(env, 0, one, Binary(Sub, one, one));
    ParsesBack(env, "", Binary(Sub, one, Binary(Sub, one, one)), "");
    assert "1" + ("-" + ("1" + ("-" + "1"))) + "" == "1-1-1";
  }

  lemma Subtraction(env: Env, k: nat, l: Expr, r: Expr)
    requires k <= 9
    ensures Print("", k, Binary(Sub, l, r)) == Print("", 10, l) + ("-" + Print("", 9, r))
    ensures Eval(env, Binary(Sub, l, r)) == Eval(env, l) - Eval(env, r)
    ensures Proper(env, l) && Proper(env, r) ==> Proper(env, Binary(Sub, l, r))
  {
    var e := Binary(Sub, l, r);
    assert Raw("", e) == Print("", 10, l) + ("" + ("-" + Print("", 9, r)));
    assert "" + ("-" + Print("", 9, r)) == "-" + Print("", 9, r);
  }

  lemma OneIsPrinted(one: Expr)
    requires one == Num(Decimal, "1", "")
    ensures forall k :: 0 <= k <= TOP ==> Print("", k, one) == "1"
  {
    assert Raw("", one) == "1";
  }

  lemma OneIsOne(env: Env)
    ensures Eval(env, Num(Decimal, "1", "")) == 1 && Proper(env, Num(Decimal, "1", ""))
  {
    assert "1"[..0] == "";
    assert Value(10, "1"[..0]) == 0 && Digit(10, "1"[0]) == 1;
    assert Value(10, "1") == 1;
  }

  // The loops

  /** SKIPSPACE */
  method SkipSpace(s: string, cp0: nat) returns (cp: nat)
    requires cp0 <= |s|
    ensures cp0 <= cp <= |s| && s[cp..] == Skip(s[cp0..])
  {
    cp := cp0;
    while cp < |s| && IsSpace(s[cp])
      invariant cp0 <= cp <= |s| && Skip(s[cp..]) == Skip(s[cp0..])
      decreases |s| - cp
    {
      assert s[cp..][1..] == s[cp + 1..];
      cp := cp + 1;
    }
  }

  /** The digits of a number in the base, from cp0 on. */
  method ReadDigits(s: string, cp0: nat, base: int) returns (cp: nat, val: int)
    requires cp0 <= |s|
    ensures cp0 <= cp <= |s| && Ok(s[cp..], val) == Digits(base, s[cp0..], 0)
  {
    cp, val := cp0, 0;
    while true
      invariant cp0 <= cp <= |s| && Digits(base, s[cp..], val) == Digits(base, s[cp0..], 0)
      decreases |s| - cp
    {
      var increment := if cp < |s| then Digit(base, s[cp]) else -1;
      if increment < 0 { break; }
      assert s[cp..][1..] == s[cp + 1..];
      val := val * base + increment;
      cp := cp + 1;
    }
  }

  /** parse_number: where the number ends, and its value. */
  method ParseNumber(s: string, cp0: nat) returns (ok: bool, cp: nat, val: int)
    requires cp0 <= |s|
    ensures cp <= |s|
    ensures var t := Skip(s[cp0..]);
      if IsDigit(First(t)) then ok && Ok(s[cp..], val) == Number(t) else !ok
  {
    hide Digits, Skip;
    cp := SkipSpace(s, cp0);
    val := 0;
    ok := IsDigit(At(s, cp));
    ghost var t := s[cp..];
    assert First(t) == At(s, cp) && At(t, 1) == At(s, cp + 1);
    if !ok { return; }
    var base := 10;
    if s[cp] == '0' {
      cp := cp + 1;
      if At(s, cp) == 'x' || At(s, cp) == 'X' {
        base := 16;
        cp := cp + 1;
        assert t[2..] == s[cp..];
      } else {
        base := 8;
        assert t[1..] == s[cp..];
      }
    }
    cp, val := ReadDigits(s, cp, base);
    ghost var from := cp;
    while cp < |s| && IsQualifier(s[cp])
      invariant from <= cp <= |s| && SkipQualifiers(s[cp..]) == SkipQualifiers(s[from..])
      decreases |s| - cp
    {
      assert s[cp..][1..] == s[cp + 1..];
      cp := cp + 1;
    }
  }
}
