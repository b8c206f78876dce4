/**
  The compiler's working state, and the ways it writes to the strip: at the end, into the middle, over an
  operand, and by copying what is there.
 */
module Emit {
  import opened Strip
  import opened Pattern
  import opened CharSets

  datatype Err = OK | EMPTY | EPAREN | BADRPT | EESCAPE | BADBR | EBRACE | EBRACK | ERANGE | OUTSIDE

  class Parse {
    var pattern: Text     // what is being read
    var next: nat         // the next character of it
    var error: Err        // the first error, if any
    var strip: seq<Sop>
    var ssize: nat        // the space there is for it
    var nsub: nat
    const newline: bool   // REG_NEWLINE
    const store: SetStore

    ghost predicate Valid()
      reads this, store
    {
      && store.Valid()
      && 1 <= ssize && |strip| <= ssize
      && (error == OK ==> next <= |pattern|)
      && (error != OK ==> pattern == [])
    }

    constructor (pattern: Text, newline: bool)
      ensures Valid() && fresh(store)
      ensures this.pattern == pattern && next == 0 && error == OK && strip == [] && nsub == 0 && this.newline == newline
      ensures store.Live() == [] && Rest() == pattern
    {
      this.pattern, next, error, strip, nsub := pattern, 0, OK, [], 0;
      ssize := |pattern| / 2 * 3 + 1;
      this.newline := newline;
      store := new SetStore();
    }

    // Reading

    predicate More()
      reads `pattern, `next
    {
      next < |pattern|
    }

    predicate More2()
      reads `pattern, `next
    {
      next + 1 < |pattern|
    }

    /** The next character, or the NUL behind the last. */
    function Peek(): Ch
      reads `pattern, `next
    {
      if next < |pattern| then pattern[next] else '\0'
    }

    function Peek2(): Ch
      reads `pattern, `next
    {
      if next + 1 < |pattern| then pattern[next + 1] else '\0'
    }

    predicate See(c: Ch)
      reads `pattern, `next
    {
      More() && Peek() == c
    }

    predicate SeeTwo(a: Ch, b: Ch)
      reads `pattern, `next
    {
      More() && More2() && Peek() == a && Peek2() == b
    }

    /** What there is to read still. */
    ghost function Rest(): (rest: Text)
      reads `pattern, `next
      ensures More() <==> rest != []
      ensures More2() <==> |rest| > 1
      ensures More() ==> rest[0] == Peek()
      ensures More2() ==> rest[1] == Peek2()
    {
      if next <= |pattern| then pattern[next..] else []
    }

    /** What there is to read still is s, and f after it. */
    ghost predicate Due(s: Text, f: Text)
      reads `error, `pattern, `next
    {
      error == OK && Rest() == s + f
    }

    /** After an error there is nothing to read. */
    lemma Halted()
      requires Valid()
      ensures error != OK ==> Rest() == []
    {
    }

    method Eat(c: Ch) returns (eaten: bool)
      requires Valid()
      modifies `next
      ensures Valid() && (eaten <==> old(See(c)))
      ensures if eaten then old(Rest()) == [c] + Rest() else next == old(next)
    {
      eaten := See(c);
      if eaten { next := next + 1; }
    }

    method GetNext() returns (c: Ch)
      requires Valid() && (error == OK ==> More())
      modifies `next
      ensures Valid() && c == old(Peek())
      ensures if old(More()) then old(Rest()) == [c] + Rest() else Rest() == []
    {
      c := Peek();
      next := next + 1;
    }

    /** Keep the earliest error, and bring things to a halt: there is nothing more to read. */
    method SetError(e: Err)
      requires Valid() && e != OK
      modifies `error, `pattern, `next
      ensures Valid() && error == (if old(error) == OK then e else old(error))
      ensures pattern == [] && next == 0 && Rest() == []
    {
      if error == OK { error := e; }
      pattern, next := [], 0;
    }

    method Require(condition: bool, e: Err)
      requires Valid() && e != OK
      modifies `error, `pattern, `next
      ensures Valid()
      ensures condition ==> error == old(error) && pattern == old(pattern) && next == old(next) && Rest() == old(Rest())
      ensures !condition ==> error == (if old(error) == OK then e else old(error)) && pattern == [] && next == 0 && Rest() == []
    {
      if !condition { SetError(e); }
    }

    // Writing

    method Enlarge(size: nat)
      modifies `ssize
      ensures ssize >= size && ssize >= old(ssize)
    {
      if ssize >= size { return; }
      ssize := size;
    }

    method Emit(op: Op, opnd: nat)
      requires Valid()
      modifies `strip, `ssize
      ensures Valid()
      ensures strip == if error == OK then old(strip) + [Sop(op, opnd)] else old(strip)
    {
      if error != OK { return; }
      if |strip| >= ssize { Enlarge((ssize + 1) / 2 * 3); }
      assert |strip| < ssize;
      strip := strip + [Sop(op, opnd)];
    }

    /** INSERT: everything from pos on moves one place, and the operator's operand reaches past its end. */
    method Insert(op: Op, pos: nat)
      requires Valid() && (error == OK ==> pos <= |strip|)
      modifies `strip, `ssize
      ensures Valid()
      ensures error != OK ==> strip == old(strip)
      ensures error == OK ==> strip == old(strip)[..pos] + [Sop(op, |old(strip)| - pos + 1)] + old(strip)[pos..]
    {
      if error != OK { return; }
      var sn := |strip|;
      Emit(op, sn - pos + 1);
      var s := strip[sn];
      strip := strip[..pos] + [s] + strip[pos..sn];
    }

    /** ASTERN: an operator that points back to pos. */
    method Astern(op: Op, pos: int)
      requires Valid() && (error == OK ==> 0 <= pos <= |strip|)
      modifies `strip, `ssize
      ensures Valid()
      ensures strip == if error == OK then old(strip) + [Sop(op, |old(strip)| - pos)] else old(strip)
    {
      if error != OK { return; }
      Emit(op, |strip| - pos);
    }

    /** AHEAD: make the operator at pos point forward to here. */
    method Ahead(pos: int)
      requires Valid() && (error == OK ==> 0 <= pos < |strip|)
      modifies `strip
      ensures Valid()
      ensures error != OK ==> strip == old(strip)
      ensures error == OK ==> strip == old(strip)[pos := Sop(old(strip)[pos].op, |old(strip)| - pos)]
    {
      if error != OK { return; }
      strip := strip[pos := Sop(strip[pos].op, |strip| - pos)];
    }

    method Drop(n: nat)
      requires Valid() && n <= |strip|
      modifies `strip
      ensures Valid() && strip == old(strip)[..|old(strip)| - n]
    {
      strip := strip[..|strip| - n];
    }

    /** A copy of what stands between start and finish. */
    method Dupl(start: nat, finish: nat) returns (ret: nat)
      requires Valid() && start <= finish <= |strip|
      modifies `strip, `ssize
      ensures Valid() && ret == |old(strip)|
      ensures strip == old(strip) + old(strip)[start..finish]
    {
      ret := |strip|;
      var len := finish - start;
      if len == 0 { return; }
      Enlarge(ssize + len);
      assert ssize >= |strip| + len;
      strip := strip + strip[start..finish];
    }

    /** What stands at pos, an OCH_ before it already, becomes the first of two branches, the second empty. */
    method MakeOptional(pos: nat, ghost pre: seq<Sop>, ghost x: Re)
      requires Valid() && error == OK && pos == |pre|
      requires exists n: nat :: strip == pre + [Sop(OCH_, n)] + Code(x)
      modifies `strip, `ssize
      ensures Valid() && strip == pre + NodeCode(Optional(x))
    {
      hide Code, Len, NodeCode, NodeLen;
      ghost var n: nat :| strip == pre + [Sop(OCH_, n)] + Code(x);
      Astern(OOR1, pos);
      Ahead(pos);
      Emit(OOR2, 0);
      Ahead(|strip| - 1);
      Astern(O_CH, |strip| - 2);
      OptionalCode(x);
    }

    /** What stands at pos becomes a loop, or may be passed by. */
    method MakeLoop(pos: nat, ghost pre: seq<Sop>, ghost x: Re)
      requires Valid() && (error == OK ==> strip == pre + Code(x) && pos == |pre|)
      modifies `strip, `ssize
      ensures Valid()
      ensures error == OK ==> strip == pre + Code(Cons(Loop(x), Nil))
    {
      hide Code, Len, NodeCode, NodeLen;
      if error != OK { return; }
      Insert(OPLUS_, pos);
      Astern(O_PLUS, pos);
      LoopCode(x);
    }

    method MakeMaybe(pos: nat, ghost pre: seq<Sop>, ghost x: Re)
      requires Valid() && (error == OK ==> strip == pre + Code(x) && pos == |pre|)
      modifies `strip, `ssize
      ensures Valid()
      ensures error == OK ==> strip == pre + Code(Cons(Maybe(x), Nil))
    {
      hide Code, Len, NodeCode, NodeLen;
      if error != OK { return; }
      Insert(OQUEST_, pos);
      Astern(O_QUEST, pos);
      LoopCode(x);
    }

    /** (x|), and a copy of x to be repeated further. */
    method OptionalThenCopy(start: nat, finish: nat, ghost pre: seq<Sop>, ghost x: Re) returns (copy: nat)
      requires Valid() && error == OK && strip == pre + Code(x) && start == |pre| && finish == |strip|
      modifies `strip, `ssize
      ensures Valid() && copy <= |strip|
      ensures strip[..copy] == pre + NodeCode(Optional(x)) && strip[copy..] == Code(x)
    {
      hide Code, Len, NodeCode, NodeLen, Optional;
      OptionalCode(x);
      Insert(OCH_, start);
      MakeOptional(start, pre, x);
      copy := Dupl(start + 1, finish + 1);
      OptionalBody(strip, pre, x, start, finish);
    }

    /** (x repeated from one to to times|) */
    method RepeatOptional(start: nat, to: nat, ghost pre: seq<Sop>, ghost x: Re)
      requires Valid() && error == OK && strip == pre + Code(x) && start == |pre| && 1 <= to <= INFINITY
      modifies `strip, `ssize
      ensures Valid() && strip == pre + NodeCode(Optional(RepeatRe(x, 1, to)))
      decreases 1, to, 0
    {
      hide Code, Len, NodeCode, NodeLen, Optional, RepeatRe;
      Insert(OCH_, start);
      ghost var och := strip[start];
      assert strip[start + 1..] == Code(x);
      Repeat(start + 1, 1, to, x);
      MakeOptional(start, pre, RepeatRe(x, 1, to));
    }

    /**
      Code for a bounded repetition of x, which stands at the end of the strip: from from to to times, to
      being INFINITY for no limit.
     */
    method Repeat(start: nat, from: nat, to: nat, ghost x: Re)
      requires Valid()
      requires error == OK ==> from <= to <= INFINITY && from <= DUPMAX && start <= |strip| && strip[start..] == Code(x)
      modifies `strip, `ssize
      ensures Valid()
      ensures error == OK ==> strip == old(strip)[..start] + Code(RepeatRe(x, from, to))
      decreases if from == 0 then 1 else 0, from + to, 1
    {
      hide Code, Len, NodeCode, NodeLen, Optional, RepeatRe;
      var finish := |strip|;
      if error != OK { return; }
      ghost var pre := strip[..start];
      assert strip == pre + Code(x);
      RepeatCode(x, from, to);
      if to == 0 {
        Drop(finish - start);
      } else if from == 0 {
        RepeatOptional(start, to, pre, x);
      } else if from == 1 && to == 1 {
      } else if from == 1 && to != INFINITY {
        var copy := OptionalThenCopy(start, finish, pre, x);
        Repeat(copy, 1, to - 1, x);
      } else if from == 1 {
        MakeLoop(start, pre, x);
      } else {
        var copy := Dupl(start, finish);
        assert strip[copy..] == Code(x);
        Repeat(copy, from - 1, if to == INFINITY then to else to - 1, x);
      }
    }
  }

  lemma LoopCode(x: Re)
    ensures |Code(x)| == Len(x)
    ensures Code(Cons(Loop(x), Nil)) == [Sop(OPLUS_, Len(x) + 1)] + Code(x) + [Sop(O_PLUS, Len(x) + 1)]
    ensures Code(Cons(Maybe(x), Nil)) == [Sop(OQUEST_, Len(x) + 1)] + Code(x) + [Sop(O_QUEST, Len(x) + 1)]
  {
    hide Len, NodeCode, NodeLen;
    CodeOne(Loop(x));
    CodeOne(Maybe(x));
    NodeCodes(Loop(x));
    NodeCodes(Maybe(x));
  }

  lemma OptionalCode(x: Re)
    ensures NodeCode(Optional(x)) == [Sop(OCH_, Len(x) + 2)] + Code(x) + [Sop(OOR1, Len(x) + 1)] + [Sop(OOR2, 1)] + [Sop(O_CH, 2)]
    ensures |Code(x)| == Len(x)
  {
    hide Len, NodeCode, AltsCode, Code;
    NodeCodes(Optional(x));
    NoBranch();
    OptionalText([Sop(OCH_, Len(x) + 2)] + Code(x) + [Sop(OOR1, Len(x) + 1)], Sop(OOR2, 1), Sop(O_CH, 2));
  }

  lemma NoBranch()
    ensures AltsCode(Last(Nil)) == [Sop(OOR2, 1)] + [Sop(O_CH, 2)]
  {
    assert Code(Nil) == [] && Len(Nil) == 0;
  }

  lemma OptionalText(a: seq<Sop>, b: Sop, c: Sop)
    ensures a + ([b] + [c]) == a + [b] + [c]
  {
  }

  /** The code of a repetition, by the cases it is generated in. */
  lemma RepeatCode(x: Re, from: nat, to: nat)
    requires from <= to <= INFINITY && from <= DUPMAX
    ensures |Code(x)| == Len(x)
    ensures to == 0 ==> Code(RepeatRe(x, from, to)) == []
    ensures from == 0 < to ==> Code(RepeatRe(x, from, to)) == NodeCode(Optional(RepeatRe(x, 1, to)))
    ensures from == 1 == to ==> RepeatRe(x, from, to) == x
    ensures from == 1 < to < INFINITY ==> Code(RepeatRe(x, from, to)) == NodeCode(Optional(x)) + Code(RepeatRe(x, 1, to - 1))
    ensures from == 1 && to == INFINITY ==> RepeatRe(x, from, to) == Cons(Loop(x), Nil)
    ensures 1 < from ==>
      Code(RepeatRe(x, from, to)) == Code(x) + Code(RepeatRe(x, from - 1, if to == INFINITY then to else to - 1))
  {
    hide Len, NodeCode, NodeLen, Optional;
    if from == 0 < to { CodeOne(Optional(RepeatRe(x, 1, to))); }
    if 1 < from { AppendCode(x, RepeatRe(x, from - 1, if to == INFINITY then to else to - 1)); }
  }

  /** After the copy: the optional x, and x once more. */
  lemma OptionalBody(strip: seq<Sop>, pre: seq<Sop>, x: Re, start: nat, finish: nat)
    requires start == |pre| && finish == start + Len(x)
    requires |strip| >= finish + 4 && finish + 1 <= |pre + NodeCode(Optional(x))|
    requires strip == pre + NodeCode(Optional(x)) + (pre + NodeCode(Optional(x)))[start + 1..finish + 1]
    ensures strip == pre + NodeCode(Optional(x)) + Code(x) && |pre + NodeCode(Optional(x))| == finish + 4
  {
    hide Len, NodeCode, Optional;
    OptionalCode(x);
    var all := pre + NodeCode(Optional(x));
    assert all[start + 1..finish + 1] == Code(x);
  }
}
