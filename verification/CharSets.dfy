/**
  The storage of bracket sets: bit vectors, eight sets to a column of bytes.  A set is a column and a
  bit; the columns grow, and the bits of freed sets are used again.
 */
module CharSets {
  import opened Strip

  /** 1 << n, in a byte */
  function Bit(n: nat): bv8
    requires n < 8
  {
    if n == 0 then 1 else if n == 1 then 2 else if n == 2 then 4 else if n == 3 then 8
    else if n == 4 then 16 else if n == 5 then 32 else if n == 6 then 64 else 128
  }

  predicate Meets(a: bv8, b: bv8) { a & b != 0 }

  /** a |= b and a &= ~b */
  function With(a: bv8, b: bv8): bv8 { a | b }

  function Without(a: bv8, b: bv8): bv8 { a & !b }

  lemma BitWith(a: bv8, m: nat, n: nat)
    requires m < 8 && n < 8
    ensures Meets(With(a, Bit(m)), Bit(n)) <==> Meets(a, Bit(n)) || m == n
  {
  }

  lemma BitWithout(a: bv8, m: nat, n: nat)
    requires m < 8 && n < 8
    ensures Meets(Without(a, Bit(m)), Bit(n)) <==> Meets(a, Bit(n)) && m != n
  {
  }

  lemma BitZero(n: nat)
    requires n < 8
    ensures !Meets(0, Bit(n))
  {
  }

  const CHAR_BIT := 8
  const NC := 256   // the size of a column

  /** The byte that says whether c is in set k, among others. */
  function Cell(k: nat, c: nat): nat {
    NC * (k / CHAR_BIT) + c
  }

  lemma CellUnique(j: nat, a: nat, k: nat, b: nat)
    requires a < NC && b < NC
    ensures Cell(j, a) == Cell(k, b) <==> j / CHAR_BIT == k / CHAR_BIT && a == b
  {
    var x, y := j / CHAR_BIT, k / CHAR_BIT;
    assert x < y ==> NC * x + NC <= NC * y;
    assert y < x ==> NC * y + NC <= NC * x;
  }

  lemma CellInside(k: nat, c: nat, nalloc: nat)
    requires k < nalloc && nalloc % CHAR_BIT == 0 && c < NC
    ensures Cell(k, c) < NC * (nalloc / CHAR_BIT)
  {
    var x, y := k / CHAR_BIT, nalloc / CHAR_BIT;
    assert x < y;
    assert NC * x + NC <= NC * y;
  }

  lemma SameColumn(j: nat, k: nat)
    ensures j / CHAR_BIT == k / CHAR_BIT && j % CHAR_BIT == k % CHAR_BIT ==> j == k
  {
  }

  /** The bit of set k for the character with code c. */
  predicate On(bits: seq<bv8>, k: int, c: int) {
    0 <= k && 0 <= c < NC && Cell(k, c) < |bits| && Meets(bits[Cell(k, c)], Bit(k % CHAR_BIT))
  }

  predicate In(bits: seq<bv8>, k: int, c: Ch) {
    On(bits, k, c as int)
  }

  function Members(bits: seq<bv8>, k: int): (s: set<Ch>) {
    set c: Ch | In(bits, k, c)
  }

  /** The first n sets. */
  function FirstSets(bits: seq<bv8>, n: nat): (sets: Sets) {
    seq(n, k => Members(bits, k))
  }

  /** Setting or clearing one bit of set no. */
  lemma OneBit(was: seq<bv8>, now: seq<bv8>, nalloc: nat, no: nat, c: nat, on: bool)
    requires no < nalloc && nalloc % CHAR_BIT == 0 && |was| == |now| == NC * (nalloc / CHAR_BIT) && c < NC
    requires Cell(no, c) < |was|
    requires var i := Cell(no, c); var b := Bit(no % CHAR_BIT);
      now == was[i := if on then With(was[i], b) else Without(was[i], b)]
    ensures forall k, d :: On(now, k, d) <==> if k == no && d == c then on else On(was, k, d)
  {
    forall k, d
      ensures On(now, k, d) <==> if k == no && d == c then on else On(was, k, d)
    {
      if 0 <= k && 0 <= d < NC {
        CellUnique(k, d, no, c);
        if Cell(k, d) == Cell(no, c) {
          BitWith(was[Cell(no, c)], no % CHAR_BIT, k % CHAR_BIT);
          BitWithout(was[Cell(no, c)], no % CHAR_BIT, k % CHAR_BIT);
          SameColumn(k, no);
        }
      }
    }
  }

  lemma CharCodes(c: Ch, d: Ch)
    ensures c as int == d as int <==> c == d
  {
  }

  /** ... changes that set by one member, and no other set. */
  lemma OneMember(was: seq<bv8>, now: seq<bv8>, n: nat, no: nat, c: Ch, on: bool)
    requires no < n
    requires forall k, d :: On(now, k, d) <==> if k == no && d == c as int then on else On(was, k, d)
    ensures FirstSets(now, n) == FirstSets(was, n)[no := if on then Members(was, no) + {c} else Members(was, no) - {c}]
  {
    hide On;
    forall k | 0 <= k < n
      ensures Members(now, k) == if k != no then Members(was, k) else if on then Members(was, no) + {c} else Members(was, no) - {c}
    {
      forall d: Ch
        ensures In(now, k, d) <==> if k == no && d == c then on else In(was, k, d)
      {
        CharCodes(c, d);
      }
    }
  }

  /** A new column adds empty sets and changes none. */
  lemma NewColumn(was: seq<bv8>)
    ensures forall k, d :: On(was + seq(NC, _ => 0), k, d) <==> On(was, k, d)
  {
    forall k, d
      ensures On(was + seq(NC, _ => 0), k, d) <==> On(was, k, d)
    {
      if 0 <= k { BitZero(k % CHAR_BIT); }
    }
  }

  lemma SameSets(was: seq<bv8>, now: seq<bv8>, n: nat)
    requires forall k, d :: On(now, k, d) <==> On(was, k, d)
    ensures FirstSets(now, n) == FirstSets(was, n)
  {
    hide On;
    forall k | 0 <= k < n
      ensures Members(now, k) == Members(was, k)
    {
    }
  }

  /** A set without bits is empty. */
  lemma NoMembers(bits: seq<bv8>, k: int)
    requires forall c :: 0 <= c < NC ==> !On(bits, k, c)
    ensures Members(bits, k) == {}
  {
  }

  /** What is kept of one set besides its bits: where its column starts, its bit, and a hash. */
  datatype Cset = Cset(ptr: nat, mask: bv8, hash: int)

  class SetStore {
    var ncsalloc: nat
    var ncsets: nat
    var sets: seq<Cset>
    var setbits: seq<bv8>

    ghost predicate Valid()
      reads this
    {
      && ncsalloc % CHAR_BIT == 0 && ncsets <= ncsalloc == |sets|
      && |setbits| == NC * (ncsalloc / CHAR_BIT)
      && (forall k :: 0 <= k < ncsets ==> sets[k].ptr == NC * (k / CHAR_BIT) && sets[k].mask == Bit(k % CHAR_BIT))
      && (forall k, c :: ncsets <= k < ncsalloc ==> !On(setbits, k, c))
    }

    /** The sets in use. */
    function Live(): (live: Sets)
      reads this
      ensures |live| == ncsets
    {
      FirstSets(setbits, ncsets)
    }

    constructor ()
      ensures Valid() && Live() == []
    {
      ncsalloc, ncsets, sets, setbits := 0, 0, [], [];
    }

    /** CHIN */
    method Has(no: nat, c: Ch) returns (b: bool)
      requires Valid() && no < ncsets
      ensures b <==> c in Live()[no]
    {
      CellInside(no, c as int, ncsalloc);
      b := Meets(setbits[sets[no].ptr + c as int], sets[no].mask);
      assert b <==> In(setbits, no, c);
    }

    /** CHadd: the set gains c, and no other set changes. */
    method Add(no: nat, c: Ch)
      requires Valid() && no < ncsets
      modifies this
      ensures Valid() && ncsets == old(ncsets)
      ensures Live() == old(Live())[no := old(Live())[no] + {c}]
    {
      hide On, With, Without;
      var at := sets[no].ptr + c as int;
      CellInside(no, c as int, ncsalloc);
      ghost var was := setbits;
      setbits := setbits[at := With(setbits[at], sets[no].mask)];
      sets := sets[no := sets[no].(hash := (sets[no].hash + c as int) % 256)];
      OneBit(was, setbits, ncsalloc, no, c as int, true);
      OneMember(was, setbits, ncsets, no, c, true);
    }

    /** CHsub: the set loses c, and no other set changes. */
    method Sub(no: nat, c: Ch)
      requires Valid() && no < ncsets
      modifies this
      ensures Valid() && ncsets == old(ncsets)
      ensures Live() == old(Live())[no := old(Live())[no] - {c}]
    {
      hide On, With, Without;
      var at := sets[no].ptr + c as int;
      CellInside(no, c as int, ncsalloc);
      ghost var was := setbits;
      setbits := setbits[at := Without(setbits[at], sets[no].mask)];
      sets := sets[no := sets[no].(hash := (sets[no].hash - c as int) % 256)];
      OneBit(was, setbits, ncsalloc, no, c as int, false);
      OneMember(was, setbits, ncsets, no, c, false);
    }

    /** A set to fill: always empty, whatever stood in its bits before. */
    method AllocSet() returns (no: nat)
      requires Valid()
      modifies this
      ensures Valid() && no == old(ncsets) && ncsets == no + 1
      ensures Live() == old(Live()) + [{}]
    {
      hide On;
      ghost var was := setbits;
      no := ncsets;
      ncsets := ncsets + 1;
      if no >= ncsalloc {
        NewColumn(setbits);
        Grown(ncsalloc);
        ncsalloc := ncsalloc + CHAR_BIT;
        sets := sets + seq(CHAR_BIT, _ => Cset(0, 0, 0));
        setbits := setbits + seq(NC, _ => 0);
        BeyondEnd(was, no);
      }
      sets := sets[no := Cset(NC * (no / CHAR_BIT), Bit(no % CHAR_BIT), 0)];
      SameSets(was, setbits, no);
      NoMembers(setbits, no);
      assert Live() == FirstSets(setbits, no) + [Members(setbits, no)];
    }

    /** Free a now-unused set; its place is recovered if it is the last one. */
    method FreeSet(no: nat)
      requires Valid() && no < ncsets
      modifies this
      ensures Valid()
      ensures Live() == if no == old(ncsets) - 1 then old(Live())[..no] else old(Live())[no := {}]
    {
      ghost var live := Live();
      var top := ncsets;
      for i := 0 to NC
        invariant Valid() && ncsets == top == old(ncsets)
        invariant Live() == live[no := Live()[no]]
        invariant forall c: Ch :: c in Live()[no] <==> c in live[no] && c as int >= i
      {
        Sub(no, i as char);
      }
      assert Live()[no] == {};
      if no == top - 1 {
        EmptyIsClear(setbits, no);
        ncsets := ncsets - 1;
        FewerSets(setbits, top, no);
        assert live[no := {}][..no] == live[..no];
      }
    }

    /**
      Final processing on a set: its number, or that of another set with the same members.  The other
      sets are left as they are.
     */
    method FreezeSet(no: nat) returns (number: nat)
      requires Valid() && no < ncsets
      modifies this
      ensures Valid() && number < ncsets && Live()[number] == old(Live())[no]
      ensures number != no ==> Live() == if no == old(ncsets) - 1 then old(Live())[..no] else old(Live())[no := {}]
      ensures number == no ==> Live() == old(Live())
    {
      var h := sets[no].hash;
      var cs2 := 0;
      while cs2 < ncsets
        invariant 0 <= cs2 <= ncsets
        modifies {}
      {
        if sets[cs2].hash == h && cs2 != no {
          var same := SameMembers(cs2, no);
          if same { break; }
        }
        cs2 := cs2 + 1;
      }
      number := no;
      if cs2 < ncsets {
        FreeSet(no);
        number := cs2;
      }
    }

    method SameMembers(a: nat, b: nat) returns (same: bool)
      requires Valid() && a < ncsets && b < ncsets
      ensures same <==> Live()[a] == Live()[b]
    {
      var i := 0;
      while i < NC
        invariant 0 <= i <= NC
        invariant forall c: Ch :: c as int < i ==> (c in Live()[a] <==> c in Live()[b])
      {
        var x := Has(a, i as char);
        var y := Has(b, i as char);
        if x != y { break; }
        i := i + 1;
      }
      same := i == NC;
      if same {
        assert forall c: Ch :: c in Live()[a] <==> c in Live()[b];
      }
    }

    /** The number of characters in a set. */
    method Nch(no: nat) returns (n: nat)
      requires Valid() && no < ncsets
      ensures n == |Live()[no]|
    {
      n := 0;
      for i := 0 to NC
        invariant n == |Below(Live()[no], i)|
      {
        var b := Has(no, i as char);
        BelowNext(Live()[no], i);
        if b { n := n + 1; }
      }
      assert Below(Live()[no], NC) == Live()[no];
    }

    /** The first character of a set that has one. */
    method FirstCh(no: nat) returns (c: Ch)
      requires Valid() && no < ncsets && Live()[no] != {}
      ensures c in Live()[no] && forall d :: d in Live()[no] ==> c <= d
    {
      ghost var some :| some in Live()[no];
      var i := 0;
      while true
        invariant 0 <= i <= some as int
        invariant forall d :: d in Live()[no] ==> i <= d as int
        decreases NC - i
      {
        var b := Has(no, i as char);
        if b { return i as char; }
        i := i + 1;
      }
    }
  }

  lemma FewerSets(bits: seq<bv8>, n: nat, k: nat)
    requires k <= n
    ensures FirstSets(bits, k) == FirstSets(bits, n)[..k]
  {
  }

  /** The members with codes below i. */
  ghost function Below(s: set<Ch>, i: nat): set<Ch> {
    set c | c in s && c as int < i
  }

  lemma BelowNext(s: set<Ch>, i: nat)
    requires i < NC
    ensures var c := i as char; |Below(s, i + 1)| == |Below(s, i)| + if c in s then 1 else 0
  {
    var c: Ch := i as char;
    if c in s {
      assert Below(s, i + 1) == Below(s, i) + {c};
    } else {
      assert Below(s, i + 1) == Below(s, i);
    }
  }

  lemma EmptyIsClear(bits: seq<bv8>, no: nat)
    requires Members(bits, no) == {}
    ensures forall c :: !On(bits, no, c)
  {
    forall c: int
      ensures !On(bits, no, c)
    {
      if 0 <= c < NC {
        var d: Ch := c as char;
        assert d !in Members(bits, no);
      }
    }
  }

  lemma Grown(n: nat)
    requires n % CHAR_BIT == 0
    ensures (n + CHAR_BIT) % CHAR_BIT == 0 && NC * ((n + CHAR_BIT) / CHAR_BIT) == NC * (n / CHAR_BIT) + NC
  {
  }

  /** There are no bits past the last column. */
  lemma BeyondEnd(bits: seq<bv8>, n: nat)
    requires n % CHAR_BIT == 0 && |bits| == NC * (n / CHAR_BIT)
    ensures forall k, c :: n <= k ==> !On(bits, k, c)
  {
    forall k: nat, c: nat | n <= k
      ensures !On(bits, k, c)
    {
      assert k / CHAR_BIT >= n / CHAR_BIT;
    }
  }
}
