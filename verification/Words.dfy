/**
  Single bits of a 32-bit word, the small form of a set of states.  Shifts by a count are repeated
  shifts by one place.  The bitwise operators go by name so that proofs can treat them as unknown.
 */
module Words {

  function Or(a: bv32, b: bv32): bv32 { a | b }

  function And(a: bv32, b: bv32): bv32 { a & b }

  /** x << n */
  function Shl(x: bv32, n: nat): bv32
    decreases n
  {
    if n == 0 then x else Shl(x, n - 1) << 1
  }

  /** x >> n */
  function Shr(x: bv32, n: nat): bv32
    decreases n
  {
    if n == 0 then x else Shr(x, n - 1) >> 1
  }

  /** (unsigned)1 << n */
  function Mask(n: nat): bv32 {
    Shl(1, n)
  }

  /** a & b as a condition */
  predicate Meets(a: bv32, b: bv32) {
    And(a, b) != 0
  }

  predicate Has(w: bv32, n: nat) {
    Meets(w, Mask(n))
  }

  ghost predicate Single(m: bv32) {
    m != 0 && m & (m - 1) == 0
  }

  ghost function Before(m: bv32): bv32 { m - 1 }

  ghost function Low(a: bv32, m: bv32): bv32 { And(a, Before(m)) }

  function Next(m: bv32): bv32 { m << 1 }

  function NextEight(m: bv32): bv32 { m << 8 }

  lemma EightNexts(m: bv32)
    ensures Next(Next(Next(Next(Next(Next(Next(Next(m)))))))) == NextEight(m)
  {
  }

  lemma MaskEight(n: nat)
    ensures Mask(n + 8) == NextEight(Mask(n))
  {
    hide Mask, Next, NextEight;
    MaskNext(n + 1); MaskNext(n + 2); MaskNext(n + 3); MaskNext(n + 4);
    MaskNext(n + 5); MaskNext(n + 6); MaskNext(n + 7); MaskNext(n + 8);
    EightNexts(Mask(n));
  }

  /** The masks of a byte. */
  lemma MaskByte(r: nat)
    requires r < 8
    ensures Mask(r) <= 0x80 && (r < 7 ==> Mask(r) <= 0x40)
  {
    assert Mask(0) == 0x1;
    assert Mask(1) == 0x2;
    assert Mask(2) == 0x4;
    assert Mask(3) == 0x8;
    assert Mask(4) == 0x10;
    assert Mask(5) == 0x20;
    assert Mask(6) == 0x40;
    assert Mask(7) == 0x80;
  }

  lemma MaskByEights(r: nat)
    ensures Mask(r + 8) == NextEight(Mask(r))
    ensures Mask(r + 16) == NextEight(NextEight(Mask(r)))
    ensures Mask(r + 24) == NextEight(NextEight(NextEight(Mask(r))))
    ensures Mask(r + 32) == NextEight(NextEight(NextEight(NextEight(Mask(r)))))
  {
    hide Mask, NextEight;
    MaskEight(r);
    MaskEight(r + 8);
    MaskEight(r + 16);
    MaskEight(r + 24);
  }

  lemma LowByEights(m: bv32)
    requires m <= 0x80
    ensures NextEight(m) <= 0x4000_0000 && NextEight(NextEight(m)) <= 0x4000_0000
    ensures m <= 0x40 ==> NextEight(NextEight(NextEight(m))) <= 0x4000_0000
  {
  }

  lemma MaskLow(n: nat)
    requires n < 31
    ensures Mask(n) <= 0x4000_0000
  {
    hide Mask, NextEight;
    var r := n % 8;
    MaskByte(r);
    MaskByEights(r);
    LowByEights(Mask(r));
    assert n == r || n == r + 8 || n == r + 16 || n == r + 24;
  }

  lemma {:induction false} MaskSingle(n: nat)
    requires n < 32
    ensures Single(Mask(n))
    ensures n > 0 ==> Mask(n - 1) << 1 == Mask(n) && Mask(n) >> 1 == Mask(n - 1) && Mask(n - 1) < Mask(n)
    decreases n
  {
    if n > 0 {
      MaskSingle(n - 1);
      MaskLow(n - 1);
      Double(Mask(n - 1));
    }
  }

  lemma Double(m: bv32)
    requires Single(m) && m <= 0x4000_0000
    ensures Single(m << 1) && (m << 1) >> 1 == m && m < m << 1
  {
  }

  lemma {:induction false} MaskOrder(a: nat, b: nat)
    requires a < b < 32
    ensures Mask(a) < Mask(b)
    decreases b
  {
    MaskSingle(b);
    if a < b - 1 { MaskOrder(a, b - 1); }
  }

  lemma MaskInjective(a: nat, b: nat)
    requires a < 32 && b < 32
    ensures Single(Mask(a)) && Single(Mask(b))
    ensures Mask(a) == Mask(b) <==> a == b
  {
    hide Mask, Single;
    MaskSingle(a);
    MaskSingle(b);
    if a < b { MaskOrder(a, b); }
    if b < a { MaskOrder(b, a); }
  }

  lemma OrBits(w: bv32, m: bv32, b: bv32)
    requires Single(m) && Single(b)
    ensures Meets(Or(w, m), b) <==> Meets(w, b) || m == b
  {
    if m == b { OrSame(w, m); } else { OrOther(w, m, b); }
  }

  lemma OrSame(w: bv32, m: bv32)
    requires Single(m)
    ensures Meets(Or(w, m), m)
  {
  }

  lemma OrOther(w: bv32, m: bv32, b: bv32)
    requires Single(m) && Single(b) && m != b
    ensures Meets(Or(w, m), b) <==> Meets(w, b)
  {
    SinglesApart(m, b);
  }

  lemma SinglesApart(m: bv32, b: bv32)
    requires Single(m) && Single(b) && m != b
    ensures m & b == 0
  {
  }

  lemma HasOr(w: bv32, k: nat, q: nat)
    requires k < 32 && q < 32
    ensures Has(Or(w, Mask(k)), q) <==> Has(w, q) || q == k
  {
    hide Mask, Single, Meets, Or;
    MaskInjective(k, q);
    OrBits(w, Mask(k), Mask(q));
  }

  lemma HasZero(q: nat)
    ensures !Has(0, q)
  {
    ZeroMeets(Mask(q));
  }

  lemma ZeroMeets(m: bv32)
    ensures !Meets(0, m) && !Meets(m, 0)
  {
  }

  lemma OrZero(w: bv32)
    ensures Or(w, 0) == w
  {
  }

  lemma {:induction false} ShlShl(x: bv32, h: nat, n: nat)
    ensures Shl(Shl(x, h), n) == Shl(x, h + n)
    decreases n
  {
    if n > 0 { ShlShl(x, h, n - 1); }
  }

  lemma {:induction false} ShiftZero(n: nat)
    ensures Shl(0, n) == 0 && Shr(0, n) == 0
    decreases n
  {
    if n > 0 { ShiftZero(n - 1); }
  }

  lemma {:induction false} ShrMask(h: nat, n: nat)
    requires n <= h < 32
    ensures Shr(Mask(h), n) == Mask(h - n)
    decreases n
  {
    if n > 0 {
      ShrMask(h, n - 1);
      MaskSingle(h - n + 1);
    }
  }

  /** The state bit of w, or nothing, as a word. */
  lemma AndMask(w: bv32, h: nat)
    requires h < 32
    ensures And(w, Mask(h)) == if Has(w, h) then Mask(h) else 0
  {
    MaskSingle(h);
    AndSingle(w, Mask(h));
  }

  lemma AndSingle(w: bv32, m: bv32)
    requires Single(m)
    ensures And(w, m) == if Meets(w, m) then m else 0
  {
  }

  /** dst |= (src & here) << n */
  function Forward(dst: bv32, src: bv32, here: bv32, n: nat): bv32 {
    Or(dst, Shl(And(src, here), n))
  }

  /** dst |= (src & here) >> n */
  function Backward(dst: bv32, src: bv32, here: bv32, n: nat): bv32 {
    Or(dst, Shr(And(src, here), n))
  }

  lemma ForwardBit(dst: bv32, src: bv32, h: nat, n: nat, q: nat)
    requires h + n < 32 && q < 32
    ensures Has(Forward(dst, src, Mask(h), n), q) <==> Has(dst, q) || (q == h + n && Has(src, h))
  {
    AndMask(src, h);
    ForwardMask(h, n);
    hide Mask, Has, And, Or, Shl;
    HasOr(dst, h + n, q);
    OrZero(dst);
    ShiftZero(n);
  }

  lemma ForwardMask(h: nat, n: nat)
    ensures Shl(Mask(h), n) == Mask(h + n)
  {
    ShlShl(1, h, n);
  }

  lemma BackwardBit(dst: bv32, src: bv32, h: nat, n: nat, q: nat)
    requires n <= h < 32 && q < 32
    ensures Has(Backward(dst, src, Mask(h), n), q) <==> Has(dst, q) || (q == h - n && Has(src, h))
  {
    AndMask(src, h);
    ShrMask(h, n);
    hide Mask, Has, And, Or, Shr;
    HasOr(dst, h - n, q);
    OrZero(dst);
    ShiftZero(n);
  }

  /** Words with the same bits are the same word. */
  lemma SameBits(a: bv32, b: bv32)
    requires forall q: nat :: q < 32 ==> (Has(a, q) <==> Has(b, q))
    ensures a == b
  {
    hide Mask, Has, Low;
    SameLowBits(a, b, 32);
    MaskFull();
    AllOnes(a, b);
  }

  lemma {:induction false} SameLowBits(a: bv32, b: bv32, k: nat)
    requires k <= 32 && forall q: nat :: q < k ==> (Has(a, q) <==> Has(b, q))
    ensures Low(a, Mask(k)) == Low(b, Mask(k))
    decreases k
  {
    hide Mask, Meets, Low, Single, Next;
    if k == 0 {
      NoBits(a, b);
    } else {
      SameLowBits(a, b, k - 1);
      MaskSingle(k - 1);
      MaskNext(k);
      assert Has(a, k - 1) <==> Has(b, k - 1);
      OneMoreBit(a, b, Mask(k - 1));
    }
  }

  lemma NoBits(a: bv32, b: bv32)
    ensures Low(a, Mask(0)) == Low(b, Mask(0))
  {
    assert Mask(0) == 1;
  }

  lemma MaskNext(k: nat)
    requires k > 0
    ensures Mask(k) == Next(Mask(k - 1))
  {
  }

  lemma Spread(a: bv32, x: bv32, y: bv32)
    ensures And(a, Or(x, y)) == Or(And(a, x), And(a, y))
  {
  }

  lemma Twice(m: bv32)
    requires Single(m)
    ensures Before(Next(m)) == Or(m, Before(m))
  {
  }

  lemma OneOrNone(a: bv32, m: bv32)
    requires Single(m)
    ensures And(a, m) == if Meets(a, m) then m else 0
  {
  }

  lemma LowOfNext(a: bv32, m: bv32)
    requires Single(m)
    ensures Low(a, Next(m)) == Or(if Meets(a, m) then m else 0, Low(a, m))
  {
    hide Single, Meets, Next, And, Or, Before;
    Twice(m);
    Spread(a, m, Before(m));
    OneOrNone(a, m);
  }

  lemma OneMoreBit(a: bv32, b: bv32, m: bv32)
    requires Single(m) && Low(a, m) == Low(b, m) && (Meets(a, m) <==> Meets(b, m))
    ensures Low(a, Next(m)) == Low(b, Next(m))
  {
    hide Single, Meets, Next, Low, Or;
    LowOfNext(a, m);
    LowOfNext(b, m);
  }

  lemma AllOnes(a: bv32, b: bv32)
    requires Low(a, 0) == Low(b, 0)
    ensures a == b
  {
  }

  lemma MaskFull()
    ensures Mask(32) == 0
  {
    hide Mask;
    MaskByEights(0);
    MaskOf0();
    NoneByEights();
  }

  lemma MaskOf0()
    ensures Mask(0) == 1
  {
  }

  lemma NoneByEights()
    ensures NextEight(NextEight(NextEight(NextEight(1)))) == 0
  {
  }
}
