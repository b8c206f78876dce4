/**
  Sets of states, in the two representations the matcher is compiled for: the bits of one word when
  the strip is short, and one byte a state when it is long.  Each operation is the macro of that name,
  and its contract speaks only of the set that is represented, so both forms compute alike.
 */
module States {
  import opened Words

  /** One state, as the macros INIT and INC keep it: a bit, or a subscript. */
  datatype OneState = Bit(mask: bv32) | Index(at: int)

  class StateSet {
    const large: bool
    const n: nat
    var word: bv32
    const bytes: array<bv8>

    ghost predicate Valid()
      reads this, bytes
    {
      if large then bytes.Length == n && forall q :: 0 <= q < n ==> bytes[q] == 0 || bytes[q] == 1
      else n <= 32 && forall q: nat :: n <= q < 32 ==> !Has(word, q)
    }

    predicate In(q: nat)
      requires Valid() && q < n
      reads this, bytes
    {
      if large then bytes[q] != 0 else Has(word, q)
    }

    ghost function Members(): (s: set<int>)
      requires Valid()
      reads this, bytes
      ensures forall q :: q in s ==> 0 <= q < n
    {
      set q | 0 <= q < n && In(q)
    }

    constructor (large: bool, n: nat)
      requires large || n <= 32
      ensures this.large == large && this.n == n && fresh(bytes)
      ensures Valid() && Members() == {}
    {
      this.large := large;
      this.n := n;
      word := 0;
      bytes := new bv8[if large then n else 0](_ => 0);
      new;
      forall q: nat ensures !Has(word, q) { HasZero(q); }
    }

    method Clear()
      requires Valid()
      modifies this, bytes
      ensures Valid() && Members() == {}
    {
      if large {
        for i := 0 to n
          invariant forall q :: 0 <= q < i ==> bytes[q] == 0
          invariant Valid()
        {
          bytes[i] := 0;
        }
      } else {
        word := 0;
        forall q: nat ensures !Has(word, q) { HasZero(q); }
      }
    }

    method Set1(k: nat)
      requires Valid() && k < n
      modifies this, bytes
      ensures Valid() && Members() == old(Members()) + {k as int}
    {
      if large {
        bytes[k] := 1;
      } else {
        ghost var was := word;
        word := Or(word, Mask(k));
        forall q: nat | q < 32 ensures Has(word, q) <==> Has(was, q) || q == k { HasOr(was, k, q); }
      }
    }

    method Assign(src: StateSet)
      requires Valid() && src.Valid() && src.large == large && src.n == n
      requires src != this ==> src.bytes != bytes
      modifies this, bytes
      ensures Valid() && Members() == old(src.Members())
    {
      if large {
        for i := 0 to n
          invariant forall q :: 0 <= q < i ==> bytes[q] == old(src.bytes[q])
          invariant forall q :: i <= q < n ==> src.bytes[q] == old(src.bytes[q])
          invariant Valid()
        {
          bytes[i] := src.bytes[i];
        }
      } else {
        word := src.word;
      }
    }

    method Equals(other: StateSet) returns (same: bool)
      requires Valid() && other.Valid() && other.large == large && other.n == n
      ensures same <==> Members() == other.Members()
    {
      if large {
        var i := 0;
        while i < n && bytes[i] == other.bytes[i]
          invariant 0 <= i <= n
          invariant forall q :: 0 <= q < i ==> bytes[q] == other.bytes[q]
        {
          i := i + 1;
        }
        same := i == n;
        if i < n { assert i in Members() <==> i !in other.Members(); }
      } else {
        same := word == other.word;
        if Members() == other.Members() {
          forall q: nat | q < 32 ensures Has(word, q) <==> Has(other.word, q)
          {
            if q < n {
              assert In(q) <==> q in Members();
              assert other.In(q) <==> q in other.Members();
            }
          }
          SameBits(word, other.word);
        }
      }
    }

    method IsSet(k: nat) returns (b: bool)
      requires Valid() && k < n
      ensures b <==> k in Members()
    {
      b := In(k);
    }

    /** INIT and INC */
    function Init(pc: nat): OneState {
      if large then Index(pc) else Bit(Mask(pc))
    }

    function Inc(here: OneState): OneState {
      match here
      case Bit(m) => Bit(Next(m))
      case Index(i) => Index(i + 1)
    }

    lemma IncInit(pc: nat)
      ensures Inc(Init(pc)) == Init(pc + 1)
    {
      hide Mask, Next;
      MaskNext(pc + 1);
    }

    method IsStateIn(here: OneState, ghost pc: nat) returns (b: bool)
      requires Valid() && pc < n && here == Init(pc)
      ensures b <==> pc in Members()
    {
      b := match here case Bit(m) => Meets(word, m) case Index(i) => bytes[i] != 0;
      assert In(pc) <==> pc in Members();
    }

    method Fwd(src: StateSet, here: OneState, ghost pc: nat, k: nat)
      requires Valid() && src.Valid() && src.large == large && src.n == n
      requires pc + k < n && here == Init(pc)
      modifies this, bytes
      ensures Valid()
      ensures Members() == old(Members()) + if pc in old(src.Members()) then {pc + k} else {}
    {
      assert src.In(pc) <==> pc in src.Members();
      if large {
        var i := here.at;
        OrByte(bytes[i + k], src.bytes[i]);
        bytes[i + k] := bytes[i + k] | src.bytes[i];
      } else {
        ghost var was, from := word, src.word;
        word := Forward(word, src.word, here.mask, k);
        forall q: nat | q < 32
          ensures Has(word, q) <==> Has(was, q) || (q == pc + k && Has(from, pc))
        {
          ForwardBit(was, from, pc, k, q);
        }
      }
    }

    method Back(src: StateSet, here: OneState, ghost pc: nat, k: nat)
      requires Valid() && src.Valid() && src.large == large && src.n == n
      requires k <= pc < n && here == Init(pc)
      modifies this, bytes
      ensures Valid()
      ensures Members() == old(Members()) + if pc in old(src.Members()) then {pc - k} else {}
    {
      assert src.In(pc) <==> pc in src.Members();
      if large {
        var i := here.at;
        OrByte(bytes[i - k], src.bytes[i]);
        bytes[i - k] := bytes[i - k] | src.bytes[i];
      } else {
        ghost var was, from := word, src.word;
        word := Backward(word, src.word, here.mask, k);
        forall q: nat | q < 32
          ensures Has(word, q) <==> Has(was, q) || (q == pc - k && Has(from, pc))
        {
          BackwardBit(was, from, pc, k, q);
        }
      }
    }

    method IsSetBack(here: OneState, ghost pc: nat, k: nat) returns (b: bool)
      requires Valid() && k <= pc < n && here == Init(pc)
      ensures b <==> pc - k in Members()
    {
      match here {
        case Bit(m) =>
          ShrMask(pc, k);
          b := Meets(word, Shr(m, k));
        case Index(i) =>
          b := bytes[i - k] != 0;
      }
      assert In(pc - k) <==> pc - k in Members();
    }
  }

  lemma OrByte(a: bv8, b: bv8)
    requires (a == 0 || a == 1) && (b == 0 || b == 1)
    ensures (a | b) == 0 || (a | b) == 1
    ensures (a | b) != 0 <==> a != 0 || b != 0
  {
  }
}
