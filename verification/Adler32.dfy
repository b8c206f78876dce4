/**
  Adler-32: sums kept unreduced over chunks of bytes, against the definition in section 2.2 of RFC 1950,
  which reduces after every byte.  The sums are 32 bits wide, and that they never exceed that is proved
  wherever they are added to.
 */
module Adler32 {
  const BASE := 65521   // largest prime smaller than 65536
  const NMAX := 5552
  const LIMIT := 0x1_0000_0000

  newtype Word = x: int | 0 <= x < LIMIT
  newtype Byte = x: int | 0 <= x < 256

  // The definition

  datatype Sums = Sums(s1: int, s2: int)

  function Reduce(s: Sums): Sums {
    Sums(s.s1 % BASE, s.s2 % BASE)
  }

  /** One more byte, without reducing. */
  function Plus(s: Sums, b: Byte): Sums {
    Sums(s.s1 + b as int, s.s2 + s.s1 + b as int)
  }

  /** s1 is the sum of all bytes, s2 the sum of all s1 values, each modulo BASE. */
  function Defined(s: Sums, buf: seq<Byte>): Sums {
    if buf == [] then s else Reduce(Plus(Defined(s, buf[..|buf| - 1]), buf[|buf| - 1]))
  }

  function Parts(adler: int): Sums
    requires 0 <= adler < LIMIT
  {
    Sums(adler % 65536, adler / 65536)
  }

  /** The checksum of the bytes in buf, adler being that of the bytes before. */
  function Adler(adler: int, buf: seq<Byte>): int
    requires 0 <= adler < LIMIT
  {
    var s := Defined(Parts(adler), buf);
    s.s2 * 65536 + s.s1
  }

  lemma {:induction false} DefinedReduced(s: Sums, buf: seq<Byte>)
    requires buf != []
    ensures var r := Defined(s, buf); 0 <= r.s1 < BASE && 0 <= r.s2 < BASE
  {
  }

  lemma AdlerRange(adler: int, buf: seq<Byte>)
    requires 0 <= adler < LIMIT
    ensures 0 <= Adler(adler, buf) < LIMIT && Parts(Adler(adler, buf)) == Defined(Parts(adler), buf)
  {
    hide Defined;
    if buf == [] {
      NothingDefined(Parts(adler));
    } else {
      DefinedReduced(Parts(adler), buf);
    }
  }

  lemma NothingDefined(s: Sums)
    ensures Defined(s, []) == s
  {
  }

  lemma {:induction false} DefinedAppend(s: Sums, a: seq<Byte>, b: seq<Byte>)
    ensures Defined(s, a + b) == Defined(Defined(s, a), b)
    decreases |b|
  {
    hide Plus;
    if b == [] {
      assert a + b == a;
    } else {
      assert (a + b)[..|a + b| - 1] == a + b[..|b| - 1];
      DefinedAppend(s, a, b[..|b| - 1]);
    }
  }

  /** Checksums compose over concatenation, whatever the start. */
  lemma AdlerAppend(adler: int, a: seq<Byte>, b: seq<Byte>)
    requires 0 <= adler < LIMIT
    ensures 0 <= Adler(adler, a) < LIMIT
    ensures Adler(Adler(adler, a), b) == Adler(adler, a + b)
  {
    hide Defined;
    AdlerRange(adler, a);
    DefinedAppend(Parts(adler), a, b);
  }

  // Reducing late

  /** The sums without reducing at all. */
  function Raw(s: Sums, buf: seq<Byte>): Sums {
    if buf == [] then s else Plus(Raw(s, buf[..|buf| - 1]), buf[|buf| - 1])
  }

  lemma PlusReduced(s: Sums, b: Byte)
    ensures Reduce(Plus(Reduce(s), b)) == Reduce(Plus(s, b))
  {
    var c := b as int;
    SumMod(s.s1, c);
    SumMod(s.s2, s.s1 % BASE + c);
    SumMod(s.s1, s.s2 + c);
    assert (s.s2 % BASE + s.s1 % BASE + c) % BASE == (s.s2 + s.s1 % BASE + c) % BASE;
  }

  lemma SumMod(a: int, b: int)
    ensures (a % BASE + b) % BASE == (a + b) % BASE
  {
    var q := a / BASE;
    assert a == q * BASE + a % BASE;
    Shifted(a % BASE + b, q);
  }

  lemma Shifted(x: int, q: int)
    ensures (q * BASE + x) % BASE == x % BASE
  {
    var y := q * BASE + x;
    var d := y / BASE - x / BASE;
    assert y % BASE - x % BASE == (q - d) * BASE;
  }

  /** Reducing once at the end comes to the same. */
  lemma {:induction false} RawReduced(s: Sums, buf: seq<Byte>)
    requires buf != []
    ensures Reduce(Raw(s, buf)) == Defined(s, buf)
    decreases |buf|
  {
    hide Plus, Reduce;
    var n := |buf| - 1;
    if n == 0 {
      assert buf[..0] == [];
    } else {
      RawReduced(s, buf[..n]);
      PlusReduced(Raw(s, buf[..n]), buf[n]);
    }
  }

  /** The largest sums n bytes can make of sums of at most m each. */
  function Most(m: int, n: int): int {
    m + n * m + 255 * (n * (n + 1) / 2)
  }

  lemma {:induction false} RawBound(s: Sums, buf: seq<Byte>, m: int)
    requires 0 <= s.s1 <= m && 0 <= s.s2 <= m
    ensures 0 <= Raw(s, buf).s1 <= m + 255 * |buf| && 0 <= Raw(s, buf).s2 <= Most(m, |buf|)
    decreases |buf|
  {
    if buf != [] {
      var n := |buf| - 1;
      RawBound(s, buf[..n], m);
      MostNext(m, n);
    }
  }

  lemma MostNext(m: int, n: int)
    requires n >= 0
    ensures Most(m, n + 1) == Most(m, n) + m + 255 * (n + 1)
  {
    assert (n + 1) * (n + 2) == n * (n + 1) + 2 * (n + 1);
    assert n * (n + 1) % 2 == 0 by { Even(n); }
    assert (n + 1) * m == n * m + m;
  }

  lemma {:induction false} Even(n: nat)
    ensures n * (n + 1) % 2 == 0
  {
    if n > 0 {
      Even(n - 1);
      assert n * (n + 1) == (n - 1) * n + 2 * n;
    }
  }

  /** NMAX bytes are safe, from any sums that fit in 16 bits. */
  lemma ChunkFits(s: Sums, buf: seq<Byte>)
    requires 0 <= s.s1 < 65536 && 0 <= s.s2 < 65536 && |buf| <= NMAX
    ensures 0 <= Raw(s, buf).s1 < LIMIT && 0 <= Raw(s, buf).s2 < LIMIT
  {
    hide Raw;
    RawBound(s, buf, 65535);
    MostGrows(65535, |buf|, NMAX);
  }

  lemma {:induction false} MostGrows(m: int, n: int, k: int)
    requires 0 <= n <= k && m >= 0
    ensures Most(m, n) <= Most(m, k)
    decreases k
  {
    if n < k {
      MostGrows(m, n, k - 1);
      MostNext(m, k - 1);
    }
  }

  function Full(n: nat): seq<Byte> {
    seq(n, _ => 255)
  }

  /** The bound is met. */
  lemma {:induction false} FullIsMost(m: int, n: nat)
    ensures Raw(Sums(m, m), Full(n)) == Sums(m + 255 * n, Most(m, n))
  {
    if n > 0 {
      FullIsMost(m, n - 1);
      MostNext(m, n - 1);
      assert Full(n)[..n - 1] == Full(n - 1);
    }
  }

  /** NMAX is the largest number of bytes that is safe from all reduced sums. */
  lemma LargestChunk(n: nat)
    ensures (forall s: Sums, buf: seq<Byte> :: Reduce(s) == s && |buf| == n ==> Raw(s, buf).s2 < LIMIT) <==> n <= NMAX
  {
    if n <= NMAX {
      forall s: Sums, buf: seq<Byte> | Reduce(s) == s && |buf| == n
        ensures Raw(s, buf).s2 < LIMIT
      {
        ChunkFits(s, buf);
      }
    } else {
      var s := Sums(BASE - 1, BASE - 1);
      FullIsMost(BASE - 1, n);
      MostGrows(BASE - 1, NMAX + 1, n);
      assert Reduce(s) == s && |Full(n)| == n && Raw(s, Full(n)).s2 >= LIMIT;
    }
  }

  // The program

  /** DO1 */
  method Do1(s1: Word, s2: Word, b: Byte, ghost from: Sums, ghost done: seq<Byte>) returns (r1: Word, r2: Word)
    requires Sums(s1 as int, s2 as int) == Raw(from, done)
    requires 0 <= from.s1 < 65536 && 0 <= from.s2 < 65536 && |done| < NMAX
    ensures Sums(r1 as int, r2 as int) == Raw(from, done + [b])
  {
    assert (done + [b])[..|done|] == done;
    ChunkFits(from, done + [b]);
    r1 := s1 + b as Word;
    r2 := s2 + r1;
  }

  method Do2(s1: Word, s2: Word, buf: array<Byte>, i: nat, ghost from: Sums, ghost start: nat) returns (r1: Word, r2: Word)
    requires start <= i && i + 2 <= buf.Length && i + 2 - start <= NMAX
    requires Sums(s1 as int, s2 as int) == Raw(from, buf[start..i]) && 0 <= from.s1 < 65536 && 0 <= from.s2 < 65536
    ensures Sums(r1 as int, r2 as int) == Raw(from, buf[start..i + 2])
  {
    r1, r2 := Do1(s1, s2, buf[i], from, buf[start..i]);
    assert buf[start..i] + [buf[i]] == buf[start..i + 1];
    r1, r2 := Do1(r1, r2, buf[i + 1], from, buf[start..i + 1]);
    assert buf[start..i + 1] + [buf[i + 1]] == buf[start..i + 2];
  }

  method Do4(s1: Word, s2: Word, buf: array<Byte>, i: nat, ghost from: Sums, ghost start: nat) returns (r1: Word, r2: Word)
    requires start <= i && i + 4 <= buf.Length && i + 4 - start <= NMAX
    requires Sums(s1 as int, s2 as int) == Raw(from, buf[start..i]) && 0 <= from.s1 < 65536 && 0 <= from.s2 < 65536
    ensures Sums(r1 as int, r2 as int) == Raw(from, buf[start..i + 4])
  {
    r1, r2 := Do2(s1, s2, buf, i, from, start);
    r1, r2 := Do2(r1, r2, buf, i + 2, from, start);
  }

  method Do8(s1: Word, s2: Word, buf: array<Byte>, i: nat, ghost from: Sums, ghost start: nat) returns (r1: Word, r2: Word)
    requires start <= i && i + 8 <= buf.Length && i + 8 - start <= NMAX
    requires Sums(s1 as int, s2 as int) == Raw(from, buf[start..i]) && 0 <= from.s1 < 65536 && 0 <= from.s2 < 65536
    ensures Sums(r1 as int, r2 as int) == Raw(from, buf[start..i + 8])
  {
    r1, r2 := Do4(s1, s2, buf, i, from, start);
    r1, r2 := Do4(r1, r2, buf, i + 4, from, start);
  }

  method Do16(s1: Word, s2: Word, buf: array<Byte>, i: nat, ghost from: Sums, ghost start: nat) returns (r1: Word, r2: Word)
    requires start <= i && i + 16 <= buf.Length && i + 16 - start <= NMAX
    requires Sums(s1 as int, s2 as int) == Raw(from, buf[start..i]) && 0 <= from.s1 < 65536 && 0 <= from.s2 < 65536
    ensures Sums(r1 as int, r2 as int) == Raw(from, buf[start..i + 16])
  {
    r1, r2 := Do8(s1, s2, buf, i, from, start);
    r1, r2 := Do8(r1, r2, buf, i + 8, from, start);
  }

  /** One chunk of k bytes from start on, sixteen at a time and then singly. */
  method Chunk(s1: Word, s2: Word, buf: array<Byte>, start: nat, len: nat) returns (r1: Word, r2: Word)
    requires s1 < 65536 && s2 < 65536 && len <= NMAX && start + len <= buf.Length
    ensures Sums(r1 as int, r2 as int) == Raw(Sums(s1 as int, s2 as int), buf[start..start + len])
  {
    ghost var from := Sums(s1 as int, s2 as int);
    r1, r2 := s1, s2;
    var i, k := start, len;
    assert buf[start..start] == [];
    while k >= 16
      invariant i + k == start + len && start <= i
      invariant Sums(r1 as int, r2 as int) == Raw(from, buf[start..i])
    {
      r1, r2 := Do16(r1, r2, buf, i, from, start);
      i := i + 16;
      k := k - 16;
    }
    while k != 0
      invariant i + k == start + len && start <= i
      invariant Sums(r1 as int, r2 as int) == Raw(from, buf[start..i])
    {
      r1, r2 := Do1(r1, r2, buf[i], from, buf[start..i]);
      assert buf[start..i] + [buf[i]] == buf[start..i + 1];
      i := i + 1;
      k := k - 1;
    }
  }

  /** The checksum of len bytes of buf after those of which adler is the checksum; 1 for no buffer. */
  method Adler32(adler: Word, buf: array?<Byte>, len: nat) returns (r: Word)
    requires buf != null ==> len <= buf.Length
    ensures r as int == if buf == null then 1 else Adler(adler as int, buf[..len])
  {
    hide Raw, Defined;
    var s1, s2 := adler % 65536, adler / 65536 % 65536;
    if buf == null { return 1; }
    ghost var s := Parts(adler as int);
    NothingDefined(s);
    var i: nat, left: nat := 0, len;
    assert buf[0..0] == [];
    while left > 0
      invariant i + left == len && s1 < 65536 && s2 < 65536
      invariant Sums(s1 as int, s2 as int) == Defined(s, buf[0..i])
    {
      var k := if left < NMAX then left else NMAX;
      ghost var was := Sums(s1 as int, s2 as int);
      left := left - k;
      s1, s2 := Chunk(s1, s2, buf, i, k);
      RawReduced(was, buf[i..i + k]);
      DefinedAppend(s, buf[0..i], buf[i..i + k]);
      assert buf[0..i] + buf[i..i + k] == buf[0..i + k];
      i := i + k;
      s1 := s1 % 65521;
      s2 := s2 % 65521;
    }
    assert buf[..len] == buf[0..len];
    r := s2 * 65536 + s1;
  }

  /** From reduced sums, a byte makes each wrap around at 65521 at most once, and the second is added to after the first has. */
  lemma Wraps(s: Sums, b: Byte)
    requires 0 <= s.s1 <= 65520 && 0 <= s.s2 <= 65520
    ensures var t := Defined(s, [b]);
      && t.s1 == (if s.s1 + b as int <= 65520 then s.s1 + b as int else s.s1 + b as int - 65521)
      && t.s2 == (if s.s2 + t.s1 <= 65520 then s.s2 + t.s1 else s.s2 + t.s1 - 65521)
  {
    assert [b][..0] == [];
    assert Defined(s, []) == s;
  }

  // In closed form

  function Sum(buf: seq<Byte>): int {
    if buf == [] then 0 else buf[0] as int + Sum(buf[1..])
  }

  /** Every byte as often as there are bytes from it to the end. */
  function Weighted(buf: seq<Byte>): int {
    if buf == [] then 0 else |buf| * buf[0] as int + Weighted(buf[1..])
  }

  lemma {:induction false} SumSnoc(buf: seq<Byte>, b: Byte)
    ensures Sum(buf + [b]) == Sum(buf) + b as int
    ensures Weighted(buf + [b]) == Weighted(buf) + Sum(buf) + b as int
    decreases |buf|
  {
    if buf != [] {
      SumSnoc(buf[1..], b);
      assert (buf + [b])[1..] == buf[1..] + [b];
      assert (|buf| + 1) * buf[0] as int == |buf| * buf[0] as int + buf[0] as int;
    } else {
      assert [b] == [] + [b] && [b][1..] == [];
    }
  }

  lemma {:induction false} RawIs(s: Sums, buf: seq<Byte>)
    ensures Raw(s, buf) == Sums(s.s1 + Sum(buf), s.s2 + |buf| * s.s1 + Weighted(buf))
    decreases |buf|
  {
    if buf != [] {
      var n := |buf| - 1;
      RawIs(s, buf[..n]);
      SumSnoc(buf[..n], buf[n]);
      assert buf[..n] + [buf[n]] == buf;
      assert (n + 1) * s.s1 == n * s.s1 + s.s1;
    }
  }

  /** From the start value 1: the low half is 1 and all bytes, the high half their number and the weighted sum, modulo 65521. */
  lemma ClosedForm(buf: seq<Byte>)
    ensures Adler(1, buf) % 65536 == (1 + Sum(buf)) % 65521
    ensures Adler(1, buf) / 65536 == (|buf| + Weighted(buf)) % 65521
  {
    hide Raw, Defined, Sum, Weighted;
    var s := Parts(1);
    AdlerRange(1, buf);
    RawIs(s, buf);
    if buf == [] {
      NothingDefined(s);
      NothingSummed();
    } else {
      RawReduced(s, buf);
    }
  }

  lemma NothingSummed()
    ensures Sum([]) == 0 && Weighted([]) == 0
  {
  }
}
