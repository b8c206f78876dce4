/**
  CRC-32: the table-driven program against the shift register of section 8 of RFC 1952, which takes its
  input a bit at a time.  Words are 32 bits wide.
 */
module Crc32 {
  type Word = bv32
  type Byte = bv8

  const POLY: Word := 0xedb88320
  const ONES: Word := 0xffffffff

  // Words

  function Xor(a: Word, b: Word): Word { a ^ b }

  function Wide(b: Byte): Word { b as Word }

  function Half(d: Byte): Byte { d >> 1 }

  predicate Odd(d: Byte) { d & 1 == 1 }

  lemma XorLaws(a: Word, b: Word, c: Word)
    ensures Xor(Xor(a, b), c) == Xor(a, Xor(b, c)) && Xor(a, b) == Xor(b, a)
    ensures Xor(a, 0) == a && Xor(a, a) == 0 && Xor(Xor(a, b), b) == a
  {
  }

  // The register

  /** The register multiplied by x: a shift, and the polynomial added if a one falls out. */
  function Shift(c: Word): Word {
    if c & 1 == 1 then POLY ^ (c >> 1) else c >> 1
  }

  /** One more bit of input. */
  function Input(c: Word, bit: bool): Word {
    if bit then Shift(Xor(c, 1)) else Shift(c)
  }

  function Register(c: Word, bits: seq<bool>): Word
    decreases |bits|
  {
    if bits == [] then c else Register(Input(c, bits[0]), bits[1..])
  }

  /** The n lowest bits of d, the lowest first. */
  function LowBits(d: Byte, n: nat): seq<bool>
    decreases n
  {
    if n == 0 then [] else [Odd(d)] + LowBits(Half(d), n - 1)
  }

  function Bits(s: seq<Byte>): seq<bool> {
    if s == [] then [] else LowBits(s[0], 8) + Bits(s[1..])
  }

  /** The checksum: the register starts and ends inverted. */
  function Crc(crc: Word, s: seq<Byte>): Word {
    Xor(Register(Xor(crc, ONES), Bits(s)), ONES)
  }

  lemma {:induction false} RegisterAppend(c: Word, a: seq<bool>, b: seq<bool>)
    ensures Register(c, a + b) == Register(Register(c, a), b)
    decreases |a|
  {
    hide Input;
    if a == [] {
      assert a + b == b;
    } else {
      assert (a + b)[1..] == a[1..] + b;
      RegisterAppend(Input(c, a[0]), a[1..], b);
    }
  }

  lemma {:induction false} BitsAppend(a: seq<Byte>, b: seq<Byte>)
    ensures Bits(a + b) == Bits(a) + Bits(b)
    decreases |a|
  {
    hide LowBits;
    if a == [] {
      assert a + b == b;
    } else {
      assert (a + b)[1..] == a[1..] + b;
      BitsAppend(a[1..], b);
      assert LowBits(a[0], 8) + (Bits(a[1..]) + Bits(b)) == LowBits(a[0], 8) + Bits(a[1..]) + Bits(b);
    }
  }

  /** Checksums compose over concatenation. */
  lemma CrcAppend(crc: Word, a: seq<Byte>, b: seq<Byte>)
    ensures Crc(Crc(crc, a), b) == Crc(crc, a + b)
  {
    hide Register, Bits, Xor;
    BitsAppend(a, b);
    RegisterAppend(Xor(crc, ONES), Bits(a), Bits(b));
    XorLaws(Register(Xor(crc, ONES), Bits(a)), ONES, 0);
  }

  // Linearity

  function Shifts(c: Word, n: nat): Word
    decreases n
  {
    if n == 0 then c else Shifts(Shift(c), n - 1)
  }

  lemma XorShift(a: Word, b: Word)
    ensures (a ^ b) >> 1 == (a >> 1) ^ (b >> 1)
    ensures (a ^ b) & 1 == (a & 1) ^ (b & 1)
    ensures a & 1 == 0 || a & 1 == 1
    ensures b & 1 == 0 || b & 1 == 1
  {
  }

  lemma PolyTwice(a: Word, b: Word)
    ensures (POLY ^ a) ^ (POLY ^ b) == a ^ b && (POLY ^ a) ^ b == POLY ^ (a ^ b) == a ^ (POLY ^ b)
  {
  }

  lemma ShiftOfXor(a: Word, b: Word)
    ensures Shift(a ^ b) == Shift(a) ^ Shift(b)
  {
    XorShift(a, b);
    PolyTwice(a >> 1, b >> 1);
  }

  lemma ShiftXor(a: Word, b: Word)
    ensures Shift(Xor(a, b)) == Xor(Shift(a), Shift(b))
  {
    hide Shift;
    ShiftOfXor(a, b);
  }

  lemma {:induction false} ShiftsXor(a: Word, b: Word, n: nat)
    ensures Shifts(Xor(a, b), n) == Xor(Shifts(a, n), Shifts(b, n))
    decreases n
  {
    hide Shift, Xor;
    if n > 0 {
      ShiftXor(a, b);
      ShiftsXor(Shift(a), Shift(b), n - 1);
    }
  }

  // Bits at once

  /** Bits as a word, the first the lowest. */
  function Pack(v: seq<bool>): Word
    decreases |v|
  {
    if v == [] then 0 else Join(v[0], Pack(v[1..]))
  }

  function Join(bit: bool, w: Word): Word {
    if bit then (w << 1) | 1 else w << 1
  }

  /** The n lowest bits. */
  function Mask(n: nat): Word
    decreases n
  {
    if n == 0 then 0 else Join(true, Mask(n - 1))
  }

  predicate Inside(a: Word, b: Word) {
    a & !b == 0
  }

  lemma OneInside(a: Word, b: Word)
    requires Inside(a, b)
    ensures Inside((a << 1) | 1, (b << 1) | 1) && Inside(a << 1, (b << 1) | 1)
  {
  }

  lemma JoinInside(bit: bool, a: Word, b: Word)
    requires Inside(a, b)
    ensures Inside(Join(bit, a), Join(true, b))
  {
    hide Inside;
    OneInside(a, b);
  }

  lemma {:induction false} PackInside(v: seq<bool>)
    ensures Inside(Pack(v), Mask(|v|))
    decreases |v|
  {
    hide Join, Inside;
    if v == [] {
      ZeroInside(0);
    } else {
      PackInside(v[1..]);
      JoinInside(v[0], Pack(v[1..]), Mask(|v| - 1));
    }
  }

  lemma ZeroInside(b: Word)
    ensures Inside(0, b)
  {
  }

  lemma InsideMore(a: Word, b: Word, c: Word)
    requires Inside(a, b) && Inside(b, c)
    ensures Inside(a, c)
  {
  }

  lemma MaskNext(n: nat)
    ensures Inside(Mask(n), Mask(n + 1))
    decreases n
  {
    hide Join, Inside;
    if n == 0 {
      ZeroInside(Mask(1));
    } else {
      MaskNext(n - 1);
      JoinInside(true, Mask(n - 1), Mask(n));
    }
  }

  lemma {:induction false} MaskGrows(n: nat, m: nat)
    requires n <= m
    ensures Inside(Mask(n), Mask(m))
    decreases m
  {
    hide Join, Inside, Mask;
    if n == m {
      InsideItself(Mask(n));
    } else {
      MaskGrows(n, m - 1);
      MaskNext(m - 1);
      InsideMore(Mask(n), Mask(m - 1), Mask(m));
    }
  }

  lemma InsideItself(a: Word)
    ensures Inside(a, a)
  {
  }

  /** The top bit is clear, so that a shift to the left loses nothing. */
  predicate Roomy(w: Word) {
    w & 0x8000_0000 == 0
  }

  function EightOnes(w: Word): Word {
    Join(true, Join(true, Join(true, Join(true, Join(true, Join(true, Join(true, Join(true, w))))))))
  }

  lemma EightMore(n: nat)
    ensures Mask(n + 8) == EightOnes(Mask(n))
  {
    hide Join, Mask;
    MaskUp(n); MaskUp(n + 1); MaskUp(n + 2); MaskUp(n + 3);
    MaskUp(n + 4); MaskUp(n + 5); MaskUp(n + 6); MaskUp(n + 7);
  }

  lemma MaskUp(n: nat)
    ensures Mask(n + 1) == Join(true, Mask(n))
  {
    hide Join;
  }

  lemma Mask31()
    ensures Mask(31) == 0x7fff_ffff
  {
    MaskByEights();
    SomeOnes();
  }

  lemma MaskByEights()
    ensures Mask(31) == EightOnes(EightOnes(EightOnes(Mask(7))))
  {
    hide Mask, EightOnes;
    EightMore(7);
    EightMore(15);
    EightMore(23);
  }

  lemma SomeOnes()
    ensures Mask(7) == 0x7f
    ensures EightOnes(EightOnes(EightOnes(0x7f))) == 0x7fff_ffff
  {
  }

  lemma InsideRoomy(a: Word)
    requires Inside(a, 0x7fff_ffff)
    ensures Roomy(a)
  {
  }

  lemma PackRoomy(v: seq<bool>)
    requires |v| <= 31
    ensures Roomy(Pack(v))
  {
    hide Pack, Mask, Inside, Roomy;
    PackInside(v);
    MaskGrows(|v|, 31);
    InsideMore(Pack(v), Mask(|v|), Mask(31));
    Mask31();
    InsideRoomy(Pack(v));
  }

  lemma JoinInjective(bit: bool, a: Word, bit': bool, b: Word)
    requires Roomy(a) && Roomy(b) && Join(bit, a) == Join(bit', b)
    ensures bit == bit' && a == b
  {
  }

  lemma JoinIs(w: Word)
    ensures Join(true, w) == Xor(1, Join(false, w))
  {
  }

  lemma ShiftJoin(w: Word)
    requires Roomy(w)
    ensures Shift(Join(false, w)) == w
  {
  }

  /** A bit put in before one shift, with those above it put in after. */
  lemma JoinIntoShift(c: Word, bit: bool, w: Word)
    requires Roomy(w)
    ensures Xor(Input(c, bit), w) == Shift(Xor(c, Join(bit, w)))
  {
    hide Shift, Xor, Roomy, Join;
    ShiftJoin(w);
    if bit {
      JoinIs(w);
      XorLaws(c, 1, Join(false, w));
      ShiftXor(Xor(c, 1), Join(false, w));
    } else {
      ShiftXor(c, Join(false, w));
    }
  }

  /** Up to 32 bits, put in one by one or all at once. */
  lemma {:induction false} PackAtOnce(c: Word, v: seq<bool>)
    requires |v| <= 32
    ensures Register(c, v) == Shifts(Xor(c, Pack(v)), |v|)
    decreases |v|
  {
    hide Shift, Xor, Roomy, Join;
    if v == [] {
      XorLaws(c, 0, 0);
    } else {
      var w := Pack(v[1..]);
      PackRoomy(v[1..]);
      PackAtOnce(Input(c, v[0]), v[1..]);
      JoinIntoShift(c, v[0], w);
    }
  }

  // A byte at a time

  /** What is left of d after n bits. */
  function High(d: Byte, n: nat): Byte
    decreases n
  {
    if n == 0 then d else High(Half(d), n - 1)
  }

  lemma NothingLeft(d: Byte)
    ensures Wide(High(d, 8)) == 0
  {
    assert High(d, 8) == Half(Half(Half(Half(Half(Half(Half(Half(d)))))))) by { hide Half; }
  }

  lemma JoinOdd(d: Byte)
    ensures Join(Odd(d), Wide(Half(d))) == Wide(d)
  {
  }

  lemma {:induction false} PackLow(d: Byte, n: nat)
    requires Wide(High(d, n)) == 0
    ensures |LowBits(d, n)| == n && Pack(LowBits(d, n)) == Wide(d)
    decreases n
  {
    hide Odd, Half, Wide, Join;
    if n > 0 {
      JoinOdd(d);
      PackLow(Half(d), n - 1);
      assert LowBits(d, n)[1..] == LowBits(Half(d), n - 1);
    }
  }

  /** The register after one more byte. */
  function Update(c: Word, b: Byte): Word {
    Shifts(Xor(c, Wide(b)), 8)
  }

  lemma ByteAtOnce(c: Word, b: Byte)
    ensures Register(c, LowBits(b, 8)) == Update(c, b)
  {
    hide Register, LowBits, Shifts, High, Pack;
    EightBits(b);
    PackAtOnce(c, LowBits(b, 8));
  }

  /** The register after a string of bytes. */
  function Updates(c: Word, s: seq<Byte>): Word
    decreases |s|
  {
    if s == [] then c else Updates(Update(c, s[0]), s[1..])
  }

  lemma {:induction false} UpdatesAre(c: Word, s: seq<Byte>)
    ensures Updates(c, s) == Register(c, Bits(s))
    decreases |s|
  {
    hide Update, Input, LowBits;
    if s != [] {
      ByteAtOnce(c, s[0]);
      RegisterAppend(c, LowBits(s[0], 8), Bits(s[1..]));
      UpdatesAre(Update(c, s[0]), s[1..]);
    }
  }

  lemma UpdatesAppend(c: Word, a: seq<Byte>, b: seq<Byte>)
    ensures Updates(c, a + b) == Updates(Updates(c, a), b)
  {
    hide Updates, Register, Bits;
    UpdatesAre(c, a + b);
    UpdatesAre(c, a);
    UpdatesAre(Updates(c, a), b);
    BitsAppend(a, b);
    RegisterAppend(c, Bits(a), Bits(b));
  }

  lemma UpdatesOne(c: Word, b: Byte)
    ensures Updates(c, [b]) == Update(c, b)
  {
    hide Update;
    assert [b][1..] == [];
  }

  // What the table holds

  lemma EightShifts(c: Word)
    ensures Shifts(c, 8) == Shift(Shift(Shift(Shift(Shift(Shift(Shift(Shift(c))))))))
  {
    hide Shift;
  }

  function Low(c: Word): Byte { (c & 0xff) as Byte }

  function Down(c: Word): Word { c >> 8 }

  lemma LowAndHigh(c: Word)
    ensures c == ((c & 0xff) as Byte as Word) ^ (c & 0xffffff00)
  {
  }

  lemma ShiftedDown(c: Word)
    ensures Shift(Shift(Shift(Shift(Shift(Shift(Shift(Shift(c & 0xffffff00)))))))) == c >> 8
  {
  }

  lemma XorIs(a: Word, b: Word)
    ensures Xor(a, b) == a ^ b
  {
  }

  lemma LowIs(c: Word)
    ensures Wide(Low(c)) == (c & 0xff) as Byte as Word && Down(c) == c >> 8
  {
  }

  /** A word is its low byte and the others; while the others are shifted down nothing falls out. */
  lemma HighBytes(c: Word) returns (high: Word)
    ensures c == Xor(Wide(Low(c)), high) && Shifts(high, 8) == Down(c)
  {
    hide Shift, Shifts, Xor, Wide, Low, Down;
    high := c & 0xffffff00;
    LowAndHigh(c);
    XorIs(Wide(Low(c)), high);
    LowIs(c);
    ShiftedDown(c);
    EightShifts(high);
  }

  /** The index of a table entry, as the program computes it. */
  function Index(c: Word, b: Byte): (i: nat)
    ensures i < 256
  {
    Low(Xor(c, Wide(b))) as int
  }

  /** Entry i of the table. */
  function Entry(i: int): Word
    requires 0 <= i < 256
  {
    Shifts(i as Word, 8)
  }

  lemma ByteWord(n: int)
    requires 0 <= n < 256
    ensures n as Byte as Word == n as Word
  {
  }

  lemma IndexWord(b: Byte)
    ensures (b as int) as Word == Wide(b)
  {
    ByteWord(b as int);
    assert (b as int) as Byte == b;
  }

  lemma DownXor(c: Word, b: Byte)
    ensures Down(Xor(c, Wide(b))) == Down(c)
  {
  }

  /** One step of the table-driven loop. */
  lemma TableStep(c: Word, b: Byte)
    ensures Xor(Entry(Index(c, b)), Down(c)) == Update(c, b)
  {
    hide Shifts, Xor, Wide, Low, Down;
    var x := Xor(c, Wide(b));
    IndexWord(Low(x));
    DownXor(c, b);
    var high := HighBytes(x);
    ShiftsXor(Wide(Low(x)), high, 8);
  }

  // Nothing is lost: what the checksum detects

  lemma ShiftInjective(a: Word, b: Word)
    ensures Shift(a) == Shift(b) ==> a == b
  {
  }

  lemma {:induction false} ShiftsInjective(a: Word, b: Word, n: nat)
    requires Shifts(a, n) == Shifts(b, n)
    ensures a == b
    decreases n
  {
    hide Shift;
    if n > 0 {
      ShiftsInjective(Shift(a), Shift(b), n - 1);
      ShiftInjective(a, b);
    }
  }

  /** From different registers the same input never leads to the same one. */
  lemma {:induction false} RegisterInjective(a: Word, b: Word, bits: seq<bool>)
    requires Register(a, bits) == Register(b, bits)
    ensures a == b
    decreases |bits|
  {
    hide Shift, Xor;
    if bits != [] {
      RegisterInjective(Input(a, bits[0]), Input(b, bits[0]), bits[1..]);
      ShiftInjective(Xor(a, 1), Xor(b, 1));
      ShiftInjective(a, b);
      XorLaws(a, 1, 0);
      XorLaws(b, 1, 0);
    }
  }

  lemma {:induction false} PackInjective(v: seq<bool>, w: seq<bool>)
    requires |v| == |w| <= 32 && Pack(v) == Pack(w)
    ensures v == w
    decreases |v|
  {
    hide Join, Roomy;
    if v != [] {
      PackRoomy(v[1..]);
      PackRoomy(w[1..]);
      JoinInjective(v[0], Pack(v[1..]), w[0], Pack(w[1..]));
      PackInjective(v[1..], w[1..]);
      assert v == [v[0]] + v[1..] && w == [w[0]] + w[1..];
    }
  }

  /** No burst of up to 32 bits goes unnoticed, whatever comes before it and after it. */
  lemma BurstDetected(c: Word, a: seq<bool>, v: seq<bool>, w: seq<bool>, b: seq<bool>)
    requires |v| == |w| <= 32 && v != w
    ensures Register(c, a + v + b) != Register(c, a + w + b)
  {
    hide Register, Pack, Shifts, Xor;
    var r := Register(c, a);
    RegisterAppend(c, a + v, b);
    RegisterAppend(c, a + w, b);
    RegisterAppend(c, a, v);
    RegisterAppend(c, a, w);
    if Register(c, a + v + b) == Register(c, a + w + b) {
      RegisterInjective(Register(r, v), Register(r, w), b);
      PackAtOnce(r, v);
      PackAtOnce(r, w);
      ShiftsInjective(Xor(r, Pack(v)), Xor(r, Pack(w)), |v|);
      XorCancel(r, Pack(v), Pack(w));
      PackInjective(v, w);
    }
  }

  lemma XorCancel(a: Word, b: Word, c: Word)
    requires Xor(a, b) == Xor(a, c)
    ensures b == c
  {
  }

  // ... in terms of bytes

  lemma {:induction false} BitsLength(s: seq<Byte>)
    ensures |Bits(s)| == 8 * |s|
    decreases |s|
  {
    hide LowBits;
    if s != [] {
      EightBits(s[0]);
      BitsLength(s[1..]);
    }
  }

  lemma EightBits(b: Byte)
    ensures |LowBits(b, 8)| == 8 && Pack(LowBits(b, 8)) == Wide(b)
  {
    hide LowBits, High, Pack;
    NothingLeft(b);
    PackLow(b, 8);
  }

  lemma ByteBitsInjective(a: Byte, b: Byte)
    requires LowBits(a, 8) == LowBits(b, 8)
    ensures a == b
  {
    hide LowBits, High, Wide;
    EightBits(a);
    EightBits(b);
    WideInjective(a, b);
  }

  lemma WideInjective(a: Byte, b: Byte)
    requires Wide(a) == Wide(b)
    ensures a == b
  {
  }

  lemma {:induction false} BitsInjective(s: seq<Byte>, t: seq<Byte>)
    requires |s| == |t| && Bits(s) == Bits(t)
    ensures s == t
    decreases |s|
  {
    hide LowBits;
    if s != [] {
      EightBits(s[0]);
      EightBits(t[0]);
      assert Bits(s)[..8] == LowBits(s[0], 8) && Bits(t)[..8] == LowBits(t[0], 8);
      assert Bits(s)[8..] == Bits(s[1..]) && Bits(t)[8..] == Bits(t[1..]);
      ByteBitsInjective(s[0], t[0]);
      BitsInjective(s[1..], t[1..]);
      assert s == [s[0]] + s[1..] && t == [t[0]] + t[1..];
    }
  }

  /** Buffers of the same length that differ within four bytes in a row never have the same checksum. */
  lemma BytesDetected(crc: Word, a: seq<Byte>, v: seq<Byte>, w: seq<Byte>, b: seq<Byte>)
    requires |v| == |w| <= 4 && v != w
    ensures Crc(crc, a + v + b) != Crc(crc, a + w + b)
  {
    hide Register, Bits, Xor;
    BitsAppend(a + v, b);
    BitsAppend(a, v);
    BitsAppend(a + w, b);
    BitsAppend(a, w);
    BitsLength(v);
    BitsLength(w);
    if Bits(v) == Bits(w) { BitsInjective(v, w); }
    var c := Xor(crc, ONES);
    BurstDetected(c, Bits(a), Bits(v), Bits(w), Bits(b));
    XorLaws(Register(c, Bits(a + v + b)), ONES, 0);
    XorLaws(Register(c, Bits(a + w + b)), ONES, 0);
  }

  // What the inversion is for

  /** The bytes of a word, the lowest first. */
  function LittleEndian(c: Word): seq<Byte> {
    [Low(c), Low(Down(c)), Low(Down(Down(c))), Low(Down(Down(Down(c))))]
  }

  /** The low byte of d cancels that in the register; what is left of d moves down. */
  lemma CancelByte(r: Word, d: Word)
    ensures Update(Xor(r, d), Low(d)) == Xor(Shifts(r, 8), Down(d))
  {
    hide Shifts, Xor, Wide, Low, Down;
    var high := HighBytes(d);
    XorOut(r, d, Wide(Low(d)), high);
    ShiftsXor(r, high, 8);
  }

  lemma XorOut(r: Word, d: Word, b: Word, high: Word)
    requires d == Xor(b, high)
    ensures Xor(Xor(r, d), b) == Xor(r, high)
  {
    hide Xor;
    XorLaws(r, d, b);
    XorLaws(b, high, 0);
    XorLaws(high, b, 0);
  }

  lemma AllDown(c: Word)
    ensures Down(Down(Down(Down(c)))) == 0
  {
  }

  lemma FourUpdates(c: Word, a: Byte, b: Byte, d: Byte, e: Byte)
    ensures Updates(c, [a, b, d, e]) == Update(Update(Update(Update(c, a), b), d), e)
  {
    hide Update, Updates;
    assert [a, b, d, e] == [a] + ([b] + ([d] + [e]));
    UpdatesAppend(c, [a], [b] + ([d] + [e]));
    UpdatesOne(c, a);
    UpdatesAppend(Update(c, a), [b], [d] + [e]);
    UpdatesOne(Update(c, a), b);
    UpdatesAppend(Update(Update(c, a), b), [d], [e]);
    UpdatesOne(Update(Update(c, a), b), d);
    UpdatesOne(Update(Update(Update(c, a), b), d), e);
  }

  /** The ones that the register starts with, after eight shifts and after 32. */
  lemma OnesShifted()
    ensures Shifts(ONES, 8) == 0x2dfd_1072
    ensures Shifts(Shifts(Shifts(Shifts(ONES, 8), 8), 8), 8) == 0xdebb_20e3
  {
    hide Shifts;
    EightShifts(0xffff_ffff);
    EightShifts(0x2dfd_1072);
    EightShifts(0xbe26_ed00);
    EightShifts(0x00be_26ed);
  }

  lemma CrcUpdates(crc: Word, s: seq<Byte>)
    ensures Crc(crc, s) == Xor(Updates(Xor(crc, ONES), s), ONES)
  {
    hide Updates, Register, Xor;
    UpdatesAre(Xor(crc, ONES), s);
  }

  /** A buffer followed by its own checksum always has the same checksum. */
  lemma Residue(crc: Word, s: seq<Byte>)
    ensures Crc(crc, s + LittleEndian(Crc(crc, s))) == 0x2144_df1c
  {
    hide Crc, Updates, Update, Shifts, Xor, Low, Down;
    var r, d := Updates(Xor(crc, ONES), s), Crc(crc, s);
    CrcUpdates(crc, s);
    CrcUpdates(crc, s + LittleEndian(d));
    UpdatesAppend(Xor(crc, ONES), s, LittleEndian(d));
    FourUpdates(r, Low(d), Low(Down(d)), Low(Down(Down(d))), Low(Down(Down(Down(d)))));
    XorTwice(r, ONES);
    CancelByte(ONES, d);
    CancelByte(Shifts(ONES, 8), Down(d));
    CancelByte(Shifts(Shifts(ONES, 8), 8), Down(Down(d)));
    CancelByte(Shifts(Shifts(Shifts(ONES, 8), 8), 8), Down(Down(Down(d))));
    AllDown(d);
    OnesShifted();
    ResidueIs();
  }

  lemma XorTwice(r: Word, x: Word)
    ensures r == Xor(x, Xor(r, x))
  {
  }

  lemma ResidueIs()
    ensures Xor(Xor(0xdebb_20e3, 0), ONES) == 0x2144_df1c
  {
  }

  lemma OnlyZero(c: Word)
    requires Shift(Shift(Shift(Shift(Shift(Shift(Shift(Shift(c)))))))) == c
    ensures c == 0
  {
  }

  /** A zero byte before all others is noticed, but by a checksum with all bits set. */
  lemma LeadingZero(crc: Word, s: seq<Byte>)
    ensures Crc(crc, [0] + s) == Crc(crc, s) <==> crc == 0xffff_ffff
  {
    hide Register, Bits, Shifts, Shift, Xor, LowBits;
    var c := Xor(crc, ONES);
    BitsAppend([0], s);
    assert Bits([0]) == LowBits(0, 8) by { OneByte(0); }
    RegisterAppend(c, LowBits(0, 8), Bits(s));
    ByteAtOnce(c, 0);
    XorLaws(c, 0, 0);
    NoByte();
    XorLaws(Register(c, Bits([0] + s)), ONES, 0);
    XorLaws(Register(c, Bits(s)), ONES, 0);
    EightShifts(c);
    if Crc(crc, [0] + s) == Crc(crc, s) {
      RegisterInjective(Shifts(c, 8), c, Bits(s));
      OnlyZero(c);
    }
    NoRegister(crc);
  }

  lemma OneByte(b: Byte)
    ensures Bits([b]) == LowBits(b, 8)
  {
    hide LowBits;
    assert [b][1..] == [] && Bits([]) == [];
  }

  lemma NoByte()
    ensures Wide(0) == 0
  {
  }

  lemma NoRegister(crc: Word)
    ensures Xor(crc, ONES) == 0 <==> crc == 0xffff_ffff
    ensures Shift(Shift(Shift(Shift(Shift(Shift(Shift(Shift(0)))))))) == 0
  {
  }

  // The program

  /** The powers in the polynomial, without x^32. */
  function Powers(): seq<nat> {
    [0, 1, 2, 4, 5, 7, 8, 10, 11, 12, 16, 22, 23, 26]
  }

  /** The bits of the first n powers: the lowest powers are in the most significant bits. */
  function Pattern(n: nat): Word
    requires n <= |Powers()|
    decreases n
  {
    if n == 0 then 0 else WithBit(Pattern(n - 1), Powers()[n - 1])
  }

  function WithBit(w: Word, e: nat): Word {
    if e < 32 then w | ((1 as Word) << (31 - e)) else w
  }

  /** The exclusive-or pattern is that of the polynomial. */
  lemma PatternIsPoly()
    ensures Pattern(14) == POLY
  {
    hide WithBit;
    assert Pattern(4) == WithBit(WithBit(WithBit(WithBit(0, 0), 1), 2), 4);
    assert Pattern(8) == WithBit(WithBit(WithBit(WithBit(Pattern(4), 5), 7), 8), 10);
    assert Pattern(12) == WithBit(WithBit(WithBit(WithBit(Pattern(8), 11), 12), 16), 22);
    assert Pattern(14) == WithBit(WithBit(Pattern(12), 23), 26);
    SomeBits();
  }

  lemma SomeBits()
    ensures WithBit(WithBit(WithBit(WithBit(0, 0), 1), 2), 4) == 0xe800_0000
    ensures WithBit(WithBit(WithBit(WithBit(0xe800_0000, 5), 7), 8), 10) == 0xeda0_0000
    ensures WithBit(WithBit(WithBit(WithBit(0xeda0_0000, 11), 12), 16), 22) == 0xedb8_8200
    ensures WithBit(WithBit(0xedb8_8200, 23), 26) == POLY
  {
  }

  class Tables {
    const crc_table: array<Word>
    var crc_table_empty: bool

    ghost predicate Valid()
      reads this, crc_table
    {
      crc_table.Length == 256 && (!crc_table_empty ==> forall n :: 0 <= n < 256 ==> crc_table[n] == Entry(n))
    }

    constructor ()
      ensures Valid() && fresh(crc_table)
    {
      crc_table_empty := true;
      crc_table := new Word[256](_ => 0);
    }

    method MakeCrcTable()
      requires Valid()
      modifies this, crc_table
      ensures Valid() && !crc_table_empty
    {
      hide Entry;
      var poly := MakePattern();
      for n := 0 to 256
        invariant forall m :: 0 <= m < n ==> crc_table[m] == Entry(m)
      {
        crc_table[n] := MakeEntry(poly, n);
      }
      crc_table_empty := false;
    }

    /** The exclusive-or pattern from the polynomial. */
    method MakePattern() returns (poly: Word)
      ensures poly == POLY
    {
      hide WithBit;
      poly := 0;
      for n := 0 to |Powers()|
        invariant poly == Pattern(n)
      {
        poly := WithBit(poly, Powers()[n]);
      }
      PatternIsPoly();
    }

    method MakeEntry(poly: Word, n: nat) returns (c: Word)
      requires poly == POLY && n < 256
      ensures c == Entry(n)
    {
      hide Shifts;
      c := n as Word;
      NoShifts(c);
      for k := 0 to 8
        invariant Shifts(c, 8 - k) == Entry(n)
      {
        ShiftFirst(c, 8 - k);
        c := if c & 1 == 1 then poly ^ (c >> 1) else c >> 1;
      }
      NoShifts(c);
    }

    /** DO1 */
    method Do1(crc: Word, b: Byte) returns (r: Word)
      requires Valid() && !crc_table_empty
      ensures r == Update(crc, b)
    {
      hide Update, Shifts, Xor, Index;
      TableStep(crc, b);
      r := Xor(crc_table[Index(crc, b)], crc >> 8);
    }

    /** The checksum of len bytes of buf; 0 for no buffer. */
    method Crc32(crc: Word, buf: array?<Byte>, len: nat) returns (r: Word)
      requires Valid() && (buf != null ==> len <= buf.Length)
      modifies this, crc_table
      ensures Valid()
      ensures r == if buf == null then 0 else Crc(crc, buf[..len])
    {
      hide Updates, Update, Xor, Entry, Register, Bits;
      if buf == null { return 0; }
      if crc_table_empty { MakeCrcTable(); }
      r := Xor(crc, ONES);
      ghost var c := r;
      NoUpdates(c, buf[0..0]);
      var i, left := 0, len;
      while left >= 8
        invariant i + left == len && r == Updates(c, buf[0..i])
        modifies {}
      {
        r := Do8(r, buf, i);
        UpdatesJoin(c, buf, 0, i, 8);
        i := i + 8;
        left := left - 8;
      }
      r := Rest(r, buf, i, left);
      UpdatesJoin(c, buf, 0, i, left);
      UpdatesAre(c, buf[0..len]);
      assert buf[..len] == buf[0..len];
      r := Xor(r, ONES);
    }

    /** The bytes left over. */
    method Rest(crc: Word, buf: array<Byte>, from: nat, len: nat) returns (r: Word)
      requires Valid() && !crc_table_empty && from + len <= buf.Length
      ensures r == Updates(crc, buf[from..from + len])
    {
      hide Updates, Update, Entry;
      r := crc;
      NoUpdates(crc, buf[from..from + 0]);
      var i, left := 0, len;
      while left > 0
        invariant i + left == len && r == Updates(crc, buf[from..from + i])
      {
        ghost var was := r;
        r := Do1(r, buf[from + i]);
        UpdatesOne(was, buf[from + i]);
        UpdatesJoin(crc, buf, from, i, 1);
        assert buf[from + i..from + i + 1] == [buf[from + i]];
        i := i + 1;
        left := left - 1;
      }
    }

    /** DO2, DO4, DO8 */
    method Do2(crc: Word, buf: array<Byte>, i: nat) returns (r: Word)
      requires Valid() && !crc_table_empty && i + 2 <= buf.Length
      ensures r == Updates(crc, buf[i..i + 2])
    {
      hide Update, Updates;
      r := Do1(crc, buf[i]);
      UpdatesOne(crc, buf[i]);
      UpdatesOne(r, buf[i + 1]);
      UpdatesJoin(crc, buf, i, 1, 1);
      assert buf[i..i + 1] == [buf[i]] && buf[i + 1..i + 2] == [buf[i + 1]];
      r := Do1(r, buf[i + 1]);
    }

    method Do4(crc: Word, buf: array<Byte>, i: nat) returns (r: Word)
      requires Valid() && !crc_table_empty && i + 4 <= buf.Length
      ensures r == Updates(crc, buf[i..i + 4])
    {
      hide Updates;
      r := Do2(crc, buf, i);
      UpdatesJoin(crc, buf, i, 2, 2);
      r := Do2(r, buf, i + 2);
    }

    method Do8(crc: Word, buf: array<Byte>, i: nat) returns (r: Word)
      requires Valid() && !crc_table_empty && i + 8 <= buf.Length
      ensures r == Updates(crc, buf[i..i + 8])
    {
      hide Updates;
      r := Do4(crc, buf, i);
      UpdatesJoin(crc, buf, i, 4, 4);
      r := Do4(r, buf, i + 4);
    }
  }

  lemma UpdatesJoin(c: Word, buf: array<Byte>, i: nat, j: nat, k: nat)
    requires i + j + k <= buf.Length
    ensures Updates(c, buf[i..i + (j + k)]) == Updates(Updates(c, buf[i..i + j]), buf[i + j..i + j + k])
  {
    hide Updates;
    UpdatesAppend(c, buf[i..i + j], buf[i + j..i + j + k]);
    assert buf[i..i + j] + buf[i + j..i + j + k] == buf[i..i + (j + k)];
  }

  lemma NoUpdates(c: Word, s: seq<Byte>)
    requires s == []
    ensures Updates(c, s) == c
  {
  }

  lemma NoShifts(c: Word)
    ensures Shifts(c, 0) == c
  {
    hide Shift;
  }

  lemma ShiftFirst(c: Word, n: nat)
    requires n > 0
    ensures Shifts(c, n) == Shifts(Shift(c), n - 1)
  {
    hide Shift;
  }
}
