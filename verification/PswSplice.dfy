/**
  FlattenSomeArrays as it is done: tokens are linked in memory, and an array that is taken apart is spliced into
  the list it stood in.  What the lists hold is described by bodies whose tokens are numbered by the nodes that
  hold them.
 */
module PswSplice {
  import opened PswLayout
  import opened PswFlatten

  /** The type of a token and the value of one that is no array or procedure. */
  datatype Kind = Plain(item: Item) | ArrayOf | ProcOf

  class Node {
    const id: nat
    var kind: Kind
    var val: Node?
    var next: Node?

    constructor (id: nat, name: string)
      ensures this.id == id && kind == Plain(Name(name)) && val == null && next == null
    {
      this.id, kind, val, next := id, Plain(Name(name)), null, null;
    }
  }

  datatype Cell = Cell(kind: Kind, val: Node?, next: Node?)

  type Memory = map<nat, Node>

  /** What the nodes hold at present. */
  ghost function Cells(mem: Memory): (cells: map<nat, Cell>)
    reads mem.Values
    ensures cells.Keys == mem.Keys
    ensures forall i :: i in mem ==> cells[i] == Cell(mem[i].kind, mem[i].val, mem[i].next)
  {
    map i | i in mem :: Cell(mem[i].kind, mem[i].val, mem[i].next)
  }

  /** Every node knows its number, so that none has two. */
  ghost predicate Numbered(mem: Memory) {
    forall i :: i in mem ==> mem[i].id == i
  }

  function KindOf(item: Item): Kind {
    if item.Array? then ArrayOf else if item.Proc? then ProcOf else Plain(item)
  }

  /** From n on, up to the node end, there is a list of the tokens of b. */
  ghost predicate Seg(mem: Memory, cells: map<nat, Cell>, n: Node?, b: Body, end: Node?)
    decreases b
  {
    if b.End? then n == end else
      var t := b.token;
      && t.id in mem && t.id in cells && n == mem[t.id]
      && cells[t.id].kind == KindOf(t.item)
      && (Composite(t) ==> Seg(mem, cells, cells[t.id].val, t.item.body, null))
      && Seg(mem, cells, cells[t.id].next, b.next, end)
  }

  function Ids(b: Body): set<nat>
    decreases b
  {
    if b.End? then {} else {b.token.id} + (if Composite(b.token) then Ids(b.token.item.body) else {}) + Ids(b.next)
  }

  function ArrayIds(b: Body): set<nat>
    decreases b
  {
    if b.End? then {} else
      (if b.token.item.Array? then {b.token.id} else {})
      + (if Composite(b.token) then ArrayIds(b.token.item.body) else {}) + ArrayIds(b.next)
  }

  /** No two tokens are held by one node. */
  predicate Distinct(b: Body)
    decreases b
  {
    b.Link? ==>
      && b.token.id !in Ids(b.next)
      && (Composite(b.token) ==>
            var inner := b.token.item.body;
            Distinct(inner) && b.token.id !in Ids(inner) && Ids(inner) !! Ids(b.next))
      && Distinct(b.next)
  }

  function Composites(b: Body): nat
    decreases b
  {
    if b.End? then 0 else (if Composite(b.token) then 1 + Composites(b.token.item.body) else 0) + Composites(b.next)
  }

  lemma {:induction false} SegAppend(mem: Memory, cells: map<nat, Cell>, n: Node?, a: Body, m: Node?, b: Body, end: Node?)
    requires Seg(mem, cells, n, a, m) && Seg(mem, cells, m, b, end)
    ensures Seg(mem, cells, n, Append(a, b), end)
    decreases a
  {
    if a.Link? { SegAppend(mem, cells, cells[a.token.id].next, a.next, m, b, end); }
  }

  /** A list is what it was if its nodes are. */
  lemma {:induction false} SegSame(mem: Memory, cells: map<nat, Cell>, mem': Memory, cells': map<nat, Cell>,
      n: Node?, b: Body, end: Node?)
    requires Seg(mem, cells, n, b, end)
    requires forall i :: i in Ids(b) ==>
      i in mem && i in cells && i in mem' && i in cells' && mem'[i] == mem[i] && cells'[i] == cells[i]
    ensures Seg(mem', cells', n, b, end)
    decreases b
  {
    if b.Link? {
      var t := b.token;
      assert t.id in Ids(b);
      if Composite(t) { SegSame(mem, cells, mem', cells', cells[t.id].val, t.item.body, null); }
      SegSame(mem, cells, mem', cells', cells[t.id].next, b.next, end);
    }
  }

  /** The nodes numbered so far, but for those changed, are what they were. */
  ghost predicate Kept(mem: Memory, cells: map<nat, Cell>, mem': Memory, cells': map<nat, Cell>, changed: set<nat>) {
    forall i :: i in mem && i !in changed ==>
      i in cells && i in mem' && i in cells' && mem'[i] == mem[i] && cells'[i] == cells[i]
  }

  lemma KeptOn(mem: Memory, cells: map<nat, Cell>, mem1: Memory, cells1: map<nat, Cell>,
      mem2: Memory, cells2: map<nat, Cell>, changed: set<nat>, more: set<nat>)
    requires Kept(mem, cells, mem1, cells1, changed) && Kept(mem1, cells1, mem2, cells2, more)
    ensures Kept(mem, cells, mem2, cells2, changed + more)
  {
  }

  lemma KeptLess(mem: Memory, cells: map<nat, Cell>, mem': Memory, cells': map<nat, Cell>, changed: set<nat>, more: set<nat>)
    requires Kept(mem, cells, mem', cells', changed) && changed * mem.Keys <= more
    ensures Kept(mem, cells, mem', cells', more)
  {
  }

  lemma KeptAt(mem: Memory, cells: map<nat, Cell>, mem': Memory, cells': map<nat, Cell>, changed: set<nat>, i: nat)
    requires Kept(mem, cells, mem', cells', changed) && i in mem && i !in changed
    ensures i in cells && i in mem' && i in cells' && mem'[i] == mem[i] && cells'[i] == cells[i]
  {
  }

  lemma SegKept(mem: Memory, cells: map<nat, Cell>, mem': Memory, cells': map<nat, Cell>, changed: set<nat>,
      n: Node?, b: Body, end: Node?)
    requires Seg(mem, cells, n, b, end) && Kept(mem, cells, mem', cells', changed) && changed !! Ids(b)
    ensures Seg(mem', cells', n, b, end)
  {
    SegIds(mem, cells, n, b, end);
    SegSame(mem, cells, mem', cells', n, b, end);
  }

  lemma {:induction false} SegIds(mem: Memory, cells: map<nat, Cell>, n: Node?, b: Body, end: Node?)
    requires Seg(mem, cells, n, b, end)
    ensures Ids(b) <= mem.Keys
    decreases b
  {
    if b.Link? {
      var t := b.token;
      if Composite(t) { SegIds(mem, cells, cells[t.id].val, t.item.body, null); }
      SegIds(mem, cells, cells[t.id].next, b.next, end);
    }
  }

  lemma {:induction false} AppendIds(a: Body, b: Body)
    ensures Ids(Append(a, b)) == Ids(a) + Ids(b)
    ensures ArrayIds(Append(a, b)) == ArrayIds(a) + ArrayIds(b)
    ensures Composites(Append(a, b)) == Composites(a) + Composites(b)
    decreases a
  {
    if a.Link? { AppendIds(a.next, b); }
  }

  lemma {:induction false} AppendDistinct(a: Body, b: Body)
    requires Distinct(a) && Distinct(b) && Ids(a) !! Ids(b)
    ensures Distinct(Append(a, b))
    decreases a
  {
    if a.Link? {
      AppendIds(a.next, b);
      AppendDistinct(a.next, b);
    }
  }

  /** What numbers there are after flattening. */
  lemma {:induction false} FlattenedIds(place: nat -> nat, b: Body)
    ensures forall i :: i in Ids(Flattened(place, b)) ==> i in Ids(b) || exists k :: k in ArrayIds(b) && i == place(k)
    decreases b
  {
    hide AllLiterals;
    if b.Link? {
      var t := b.token;
      FlattenedIds(place, b.next);
      if Composite(t) {
        FlattenedIds(place, t.item.body);
        if t.item.Array? && !AllLiterals(t.item.body) {
          AppendIds(Flattened(place, t.item.body), Link(Closer(place(t.id)), Flattened(place, b.next)));
        }
      }
    }
  }

  /** One node of a list. */
  lemma SegNode(mem: Memory, cells: map<nat, Cell>, n: Node?, b: Body, end: Node?)
    requires Seg(mem, cells, n, b, end)
    ensures b.End? ==> n == end
    ensures b.Link? ==>
      && b.token.id in mem && b.token.id in cells && n == mem[b.token.id] && cells[b.token.id].kind == KindOf(b.token.item)
      && (Composite(b.token) ==> Seg(mem, cells, cells[b.token.id].val, b.token.item.body, null))
      && Seg(mem, cells, cells[b.token.id].next, b.next, end)
  {
  }

  method AllLiteralTokens(body: Node?, ghost mem: Memory, ghost b: Body) returns (r: bool)
    requires Seg(mem, Cells(mem), body, b, null)
    ensures r == AllLiterals(b)
    decreases Count(b)
  {
    hide Seg, AllLiterals, Count;
    var t := body;
    ghost var rest := b;
    while t != null
      invariant Seg(mem, Cells(mem), t, rest, null)
      invariant AllLiterals(b) == AllLiterals(rest) && Count(rest) <= Count(b)
      decreases Count(rest)
    {
      SegNode(mem, Cells(mem), t, rest, null);
      OneLiteral(rest);
      if t.kind.Plain? && t.kind.item.Name? { return false; }
      if t.kind.ArrayOf? {
        var all := AllLiteralTokens(t.val, mem, rest.token.item.body);
        if !all { return false; }
      }
      t := t.next;
      rest := rest.next;
    }
    SegNode(mem, Cells(mem), t, rest, null);
    NoLiteral();
    return true;
  }

  lemma OneLiteral(b: Body)
    ensures b.Link? ==> (AllLiterals(b) <==>
      !b.token.item.Name? && (b.token.item.Array? ==> AllLiterals(b.token.item.body)) && AllLiterals(b.next))
    ensures b.Link? ==> Count(b) == 1 + (if Composite(b.token) then Count(b.token.item.body) else 0) + Count(b.next)
  {
  }

  lemma NoLiteral()
    ensures AllLiterals(End)
  {
  }

  ghost function Nodes(mem: Memory, ids: set<nat>): (nodes: set<Node>)
    requires ids <= mem.Keys
    ensures forall i :: i in ids ==> mem[i] in nodes
    ensures forall n :: n in nodes ==> exists i :: i in ids && mem[i] == n
  {
    set i | i in ids :: mem[i]
  }

  /** The last node of a list, the token it holds, and those before. */
  method FindLast(b: Node, ghost mem: Memory, ghost bd: Body) returns (last: Node, ghost front: Body, ghost tok: Token)
    requires Seg(mem, Cells(mem), b, bd, null)
    ensures bd == Append(front, Link(tok, End))
    ensures Seg(mem, Cells(mem), b, front, last) && Seg(mem, Cells(mem), last, Link(tok, End), null)
  {
    hide Seg;
    SegNode(mem, Cells(mem), b, bd, null);
    last := b;
    front, tok := End, bd.token;
    ghost var rest := bd;
    AppendToEmpty(mem, Cells(mem), b, bd);
    while last.next != null
      invariant rest.Link? && Append(front, rest) == bd
      invariant Seg(mem, Cells(mem), b, front, last) && Seg(mem, Cells(mem), last, rest, null)
      decreases rest
    {
      SegNode(mem, Cells(mem), last, rest, null);
      SegNode(mem, Cells(mem), last.next, rest.next, null);
      OneOn(mem, Cells(mem), b, front, last, rest);
      front := Append(front, Link(rest.token, End));
      last := last.next;
      rest := rest.next;
    }
    SegNode(mem, Cells(mem), last, rest, null);
    SegNode(mem, Cells(mem), null, rest.next, null);
    tok := rest.token;
  }

  lemma AppendToEmpty(mem: Memory, cells: map<nat, Cell>, n: Node?, b: Body)
    ensures Append(End, b) == b && Seg(mem, cells, n, End, n)
  {
  }

  /** A list with its next node. */
  lemma OneOn(mem: Memory, cells: map<nat, Cell>, n: Node?, front: Body, m: Node?, rest: Body)
    requires rest.Link? && Seg(mem, cells, n, front, m) && Seg(mem, cells, m, rest, null)
    ensures var more := Append(front, Link(rest.token, End));
      rest.token.id in cells && Seg(mem, cells, n, more, cells[rest.token.id].next) && Append(more, rest.next) == Append(front, rest)
  {
    AppendAssociates(front, Link(rest.token, End), rest.next);
    SegAppend(mem, cells, n, front, m, Link(rest.token, End), cells[rest.token.id].next);
  }

  /** The last node is linked to another. */
  method LinkLast(b: Node, ghost mem: Memory, ghost bd: Body, to: Node)
    requires Seg(mem, Cells(mem), b, bd, null) && Distinct(bd) && Numbered(mem) && Ids(bd) <= mem.Keys
    modifies Nodes(mem, Ids(bd))
    ensures Seg(mem, Cells(mem), b, bd, to)
    ensures Kept(mem, old(Cells(mem)), mem, Cells(mem), Ids(bd))
  {
    hide Seg, Distinct, Ids, Cells, Nodes;
    var last, front, tok := FindLast(b, mem, bd);
    ghost var cells := Cells(mem);
    SegNode(mem, cells, last, Link(tok, End), null);
    AppendIds(front, Link(tok, End));
    LastIds(front, tok);
    last.next := to;
    Relinked(mem, cells, Cells(mem), b, front, last, tok, to);
  }

  lemma {:induction false} LastIds(front: Body, tok: Token)
    requires Distinct(Append(front, Link(tok, End)))
    ensures Ids(Link(tok, End)) == {tok.id} + Ids(BodyOf(tok))
    ensures tok.id !in Ids(front) && tok.id !in Ids(BodyOf(tok))
    decreases front
  {
    if front.Link? {
      LastIds(front.next, tok);
      AppendIds(front.next, Link(tok, End));
    }
  }

  lemma Relinked(mem: Memory, cells: map<nat, Cell>, cells': map<nat, Cell>, n: Node?, front: Body, last: Node, tok: Token, to: Node)
    requires Seg(mem, cells, n, front, last) && Seg(mem, cells, last, Link(tok, End), null)
    requires tok.id !in Ids(front) && tok.id !in Ids(BodyOf(tok))
    requires cells.Keys == cells'.Keys == mem.Keys && cells'[tok.id] == cells[tok.id].(next := to)
    requires forall i :: i in cells && i != tok.id ==> cells'[i] == cells[i]
    ensures Seg(mem, cells', n, Append(front, Link(tok, End)), to)
  {
    SegIds(mem, cells, n, front, last);
    SegSame(mem, cells, mem, cells', n, front, last);
    if Composite(tok) {
      SegIds(mem, cells, cells[tok.id].val, tok.item.body, null);
      SegSame(mem, cells, mem, cells', cells[tok.id].val, tok.item.body, null);
    }
    assert Seg(mem, cells', to, End, to);
    SegAppend(mem, cells', n, front, last, Link(tok, End), to);
  }

  /** The array at t becomes an opening bracket, its tokens, and a closing bracket before what came after it. */
  method Splice(t: Node, ghost mem: Memory, ghost tok: Token, ghost rest: Body, p: nat) returns (ghost mem': Memory)
    requires Seg(mem, Cells(mem), t, Link(tok, rest), null) && tok.item.Array?
    requires Distinct(Link(tok, rest)) && Numbered(mem) && p !in mem && Ids(Link(tok, rest)) <= mem.Keys
    modifies Nodes(mem, {tok.id} + Ids(tok.item.body))
    ensures mem'.Keys == mem.Keys + {p} && fresh(mem'[p]) && Numbered(mem')
    ensures forall i :: i in mem ==> mem'[i] == mem[i]
    ensures Kept(mem, old(Cells(mem)), mem', Cells(mem'), {tok.id} + Ids(tok.item.body))
    ensures Seg(mem', Cells(mem'), t, Link(Opener(tok.id), Append(tok.item.body, Link(Closer(p), rest))), null)
  {
    hide Seg, Distinct, Ids, Cells, Kept;
    ghost var inner, cells := tok.item.body, Cells(mem);
    SegNode(mem, cells, t, Link(tok, rest), null);
    ArrayFacts(tok, rest);
    ghost var b, t1 := t.val, t.next;
    var trsq;
    trsq, mem' := Bracket(t, mem, tok.id, p);
    ghost var cells1 := Cells(mem');
    SegKept(mem, cells, mem', cells1, {tok.id}, b, inner, null);
    Attach(t, mem', tok.id, inner, trsq);
    SpliceHolds(mem, cells, mem', cells1, Cells(mem'), t, tok, rest, p, t1);
  }

  /** The list at t.next is continued with a node. */
  method Attach(t: Node, ghost mem: Memory, ghost k: nat, ghost inner: Body, trsq: Node)
    requires k in mem && mem[k] == t && Numbered(mem) && Ids(inner) <= mem.Keys && k !in Ids(inner)
    requires Seg(mem, Cells(mem), t.next, inner, null) && Distinct(inner)
    modifies t, Nodes(mem, Ids(inner))
    ensures Seg(mem, Cells(mem), t.next, inner, trsq) && t.kind == old(t.kind)
    ensures Kept(mem, old(Cells(mem)), mem, Cells(mem), {k} + Ids(inner))
  {
    hide Seg, Distinct, Ids, Cells, Nodes;
    SegNode(mem, Cells(mem), t.next, inner, null);
    if t.next == null {
      t.next := trsq;
      EmptySeg(mem, Cells(mem), inner, trsq);
    } else {
      LinkLast(t.next, mem, inner, trsq);
    }
  }

  lemma EmptySeg(mem: Memory, cells: map<nat, Cell>, b: Body, n: Node)
    requires b.End?
    ensures Seg(mem, cells, n, b, n)
  {
  }

  /** The array's node becomes an opening bracket, and a new node is the closing one. */
  method Bracket(t: Node, ghost mem: Memory, ghost k: nat, p: nat) returns (trsq: Node, ghost mem': Memory)
    requires k in mem && mem[k] == t && Numbered(mem) && p !in mem
    modifies t
    ensures mem' == mem[p := trsq] && fresh(trsq) && Numbered(mem')
    ensures Kept(mem, old(Cells(mem)), mem', Cells(mem'), {k})
    ensures Cells(mem')[k] == Cell(Plain(Name("[")), null, old(t.val))
    ensures Cells(mem')[p] == Cell(Plain(Name("]")), null, old(t.next))
  {
    var t1 := t.next;
    var b := t.val;
    var tlsq := new Node(t.id, "[");
    trsq := new Node(p, "]");
    t.kind, t.val, t.next := tlsq.kind, tlsq.val, tlsq.next;
    t.next := b;
    trsq.next := t1;
    mem' := mem[p := trsq];
  }

  lemma ArrayFacts(tok: Token, rest: Body)
    requires tok.item.Array? && Distinct(Link(tok, rest))
    ensures Distinct(tok.item.body) && Ids(Link(tok, rest)) == {tok.id} + Ids(tok.item.body) + Ids(rest)
    ensures tok.id !in Ids(tok.item.body) && tok.id !in Ids(rest) && Ids(tok.item.body) !! Ids(rest)
  {
  }

  lemma SpliceHolds(mem: Memory, cells: map<nat, Cell>, mem': Memory, cells1: map<nat, Cell>, cells2: map<nat, Cell>,
      t: Node, tok: Token, rest: Body, p: nat, t1: Node?)
    requires tok.item.Array? && Distinct(Link(tok, rest)) && Ids(Link(tok, rest)) <= mem.Keys
    requires p !in mem && p in mem' && tok.id in mem' && mem'[tok.id] == t && mem'.Keys == cells1.Keys == cells2.Keys
    requires Kept(mem, cells, mem', cells1, {tok.id}) && Kept(mem', cells1, mem', cells2, {tok.id} + Ids(tok.item.body))
    requires Seg(mem, cells, t1, rest, null) && Seg(mem', cells2, cells2[tok.id].next, tok.item.body, mem'[p])
    requires cells2[tok.id].kind == Plain(Name("[")) && cells1[p] == Cell(Plain(Name("]")), null, t1)
    ensures Kept(mem, cells, mem', cells2, {tok.id} + Ids(tok.item.body))
    ensures Seg(mem', cells2, t, Link(Opener(tok.id), Append(tok.item.body, Link(Closer(p), rest))), null)
  {
    hide Seg, Distinct, Ids, Kept;
    var inner, changed := tok.item.body, {tok.id} + Ids(tok.item.body);
    ArrayFacts(tok, rest);
    KeptOn(mem, cells, mem', cells1, mem', cells2, {tok.id}, changed);
    assert {tok.id} + changed == changed;
    KeptAt(mem', cells1, mem', cells2, changed, p);
    SegKept(mem, cells, mem', cells2, changed, t1, rest, null);
    Spliced(mem', cells2, t, tok.id, inner, p, t1, rest);
  }

  lemma Spliced(mem: Memory, cells: map<nat, Cell>, t: Node, k: nat, inner: Body, p: nat,
      t1: Node?, rest: Body)
    requires p in mem && k in mem && mem[k] == t && cells.Keys == mem.Keys
    requires cells[k].kind == Plain(Name("[")) && Seg(mem, cells, cells[k].next, inner, mem[p])
    requires cells[p] == Cell(Plain(Name("]")), null, t1)
    requires Seg(mem, cells, t1, rest, null)
    ensures Seg(mem, cells, t, Link(Opener(k), Append(inner, Link(Closer(p), rest))), null)
  {
    SegAppend(mem, cells, cells[k].next, inner, mem[p], Link(Closer(p), rest), null);
  }

  // The walk along a list

  /** What has been done, up to t, and what is to do from there. */
  ghost predicate Lists(mem: Memory, cells: map<nat, Cell>, body: Node?, done: Body, t: Node?, rest: Body) {
    Seg(mem, cells, body, done, t) && Seg(mem, cells, t, rest, null) && Ids(done) !! Ids(rest)
  }

  /** The nodes of a list are told apart, and there are numbers to be had for the brackets. */
  ghost predicate Room(place: nat -> nat, mem: Memory, b: Body) {
    && Distinct(b) && Numbered(mem) && Ids(b) <= mem.Keys
    && (forall i :: i in ArrayIds(b) ==> place(i) !in mem)
    && (forall i, j :: i in ArrayIds(b) && j in ArrayIds(b) && place(i) == place(j) ==> i == j)
  }

  /** Numbers above all those there are will do. */
  lemma AlwaysRoom(mem: Memory, b: Body, n: nat)
    requires Distinct(b) && Numbered(mem) && Ids(b) <= mem.Keys && forall i :: i in mem ==> i < n
    ensures Room((i: nat) => i + n, mem, b)
  {
    hide Distinct, Ids;
  }

  /** The memory has grown by nodes for the brackets of b. */
  ghost predicate Grown(place: nat -> nat, mem: Memory, mem': Memory, b: Body) {
    && (forall i :: i in mem ==> i in mem' && mem'[i] == mem[i])
    && (forall i :: i in mem' && i !in mem ==> exists k :: k in ArrayIds(b) && i == place(k))
  }

  function Then(done: Body, t: Token): Body {
    Append(done, Link(t, End))
  }

  /** A token at t, done with. */
  lemma TokenDone(mem: Memory, cells: map<nat, Cell>, body: Node?, done: Body, t: Node?, rest: Body)
    requires Seg(mem, cells, body, done, t) && Seg(mem, cells, t, rest, null) && rest.Link?
    ensures rest.token.id in cells && Seg(mem, cells, body, Then(done, rest.token), cells[rest.token.id].next)
    ensures Seg(mem, cells, cells[rest.token.id].next, rest.next, null)
    ensures Ids(Then(done, rest.token)) == Ids(done) + {rest.token.id} + Ids(BodyOf(rest.token))
  {
    OneOn(mem, cells, body, done, t, rest);
    AppendIds(done, Link(rest.token, End));
  }

  /** The numbers in the first token of a list, and in the others. */
  lemma FirstIds(place: nat -> nat, mem: Memory, b: Body)
    requires Room(place, mem, b) && b.Link?
    ensures Ids(b) == {b.token.id} + Ids(BodyOf(b.token)) + Ids(b.next)
    ensures b.token.id !in Ids(BodyOf(b.token)) + Ids(b.next) && Ids(BodyOf(b.token)) !! Ids(b.next)
    ensures ArrayIds(BodyOf(b.token)) + ArrayIds(b.next) <= ArrayIds(b) && (b.token.item.Array? ==> b.token.id in ArrayIds(b))
    ensures Room(place, mem, BodyOf(b.token)) && Room(place, mem, b.next)
    ensures Composites(b) == (if Composite(b.token) then 1 + Composites(b.token.item.body) else 0) + Composites(b.next)
  {
  }

  lemma {:induction false} ArraysAreTokens(b: Body)
    ensures ArrayIds(b) <= Ids(b)
    decreases b
  {
    if b.Link? {
      ArraysAreTokens(b.next);
      if Composite(b.token) { ArraysAreTokens(b.token.item.body); }
    }
  }

  /** Numbers taken for the brackets of one part of a list are none of another's. */
  lemma RoomLeft(place: nat -> nat, mem: Memory, mem': Memory, part: Body, other: Body, b: Body)
    requires Room(place, mem, b) && Room(place, mem, other) && Grown(place, mem, mem', part) && Numbered(mem')
    requires ArrayIds(part) <= ArrayIds(b) && ArrayIds(other) <= ArrayIds(b) && ArrayIds(part) !! ArrayIds(other)
    ensures Room(place, mem', other)
  {
  }

  lemma GrownOn(place: nat -> nat, mem: Memory, mem1: Memory, mem2: Memory, b: Body, part: Body)
    requires Grown(place, mem, mem1, b) && Grown(place, mem1, mem2, part) && ArrayIds(part) <= ArrayIds(b)
    ensures Grown(place, mem, mem2, b)
  {
  }

  /** The array at t has been spliced in. */
  lemma AfterSplice(place: nat -> nat, mem: Memory, cells: map<nat, Cell>, mem': Memory, cells': map<nat, Cell>,
      body: Node?, done: Body, t: Node, rest: Body, more: Body)
    requires Lists(mem, cells, body, done, t, rest) && Room(place, mem, rest)
    requires rest.Link? && rest.token.item.Array?
    requires more == Append(rest.token.item.body, Link(Closer(place(rest.token.id)), rest.next))
    requires mem'.Keys == mem.Keys + {place(rest.token.id)} && Numbered(mem') && forall i :: i in mem ==> mem'[i] == mem[i]
    requires Kept(mem, cells, mem', cells', {rest.token.id} + Ids(rest.token.item.body))
    requires Seg(mem', cells', t, Link(Opener(rest.token.id), more), null)
    ensures rest.token.id in cells'
    ensures Lists(mem', cells', body, Then(done, Opener(rest.token.id)), cells'[rest.token.id].next, more)
    ensures Room(place, mem', more) && Grown(place, mem, mem', rest)
    ensures Ids(more) <= Ids(rest) + {place(rest.token.id)} && ArrayIds(more) <= ArrayIds(rest)
    ensures Composites(more) < Composites(rest)
  {
    hide Seg, Distinct, Ids, ArrayIds, Kept, Composites;
    var k, p, inner := rest.token.id, place(rest.token.id), rest.token.item.body;
    FirstIds(place, mem, rest);
    SegIds(mem, cells, body, done, t);
    SegKept(mem, cells, mem', cells', {k} + Ids(inner), body, done, t);
    TokenDone(mem', cells', body, done, t, Link(Opener(k), more));
    MoreIds(inner, p, rest.next);
    BodiesApart(rest);
    RoomForMore(place, mem, mem', rest, more);
    assert Ids(BodyOf(Opener(k))) == {} by { NoIds(); }
  }

  lemma NoIds()
    ensures Ids(End) == {} && ArrayIds(End) == {} && Composites(End) == 0
  {
  }

  lemma MoreIds(inner: Body, p: nat, next: Body)
    ensures var more := Append(inner, Link(Closer(p), next));
      && Ids(more) == Ids(inner) + {p} + Ids(next) && ArrayIds(more) == ArrayIds(inner) + ArrayIds(next)
      && Composites(more) == Composites(inner) + Composites(next)
  {
    hide Ids, ArrayIds, Composites;
    CloserIds(p, next);
    AppendIds(inner, Link(Closer(p), next));
  }

  lemma CloserIds(p: nat, next: Body)
    ensures var b := Link(Closer(p), next);
      Ids(b) == {p} + Ids(next) && ArrayIds(b) == ArrayIds(next) && Composites(b) == Composites(next)
  {
  }

  lemma BodiesApart(rest: Body)
    requires rest.Link? && rest.token.item.Array? && Distinct(rest)
    ensures rest.token.id !in ArrayIds(rest.token.item.body) + ArrayIds(rest.next)
  {
    ArraysAreTokens(rest.token.item.body);
    ArraysAreTokens(rest.next);
  }

  lemma RoomForMore(place: nat -> nat, mem: Memory, mem': Memory, rest: Body, more: Body)
    requires Room(place, mem, rest) && rest.Link? && rest.token.item.Array?
    requires more == Append(rest.token.item.body, Link(Closer(place(rest.token.id)), rest.next))
    requires mem'.Keys == mem.Keys + {place(rest.token.id)} && Numbered(mem')
    ensures Room(place, mem', more)
  {
    hide ArrayIds, Ids;
    var k, p, inner := rest.token.id, place(rest.token.id), rest.token.item.body;
    FirstIds(place, mem, rest);
    BodiesApart(rest);
    MoreIds(inner, p, rest.next);
    assert Ids(Link(Closer(p), rest.next)) == {p} + Ids(rest.next) by { CloserIds(p, rest.next); }
    AppendDistinct(inner, Link(Closer(p), rest.next));
  }

  /** A token with other tokens within. */
  function WithBody(t: Token, b: Body): Token
    requires Composite(t)
  {
    Token(t.id, if t.item.Array? then Array(b) else Proc(b))
  }

  /** What is within the token at t has been flattened. */
  lemma AfterNested(place: nat -> nat, mem: Memory, cells: map<nat, Cell>, mem': Memory, cells': map<nat, Cell>,
      body: Node?, done: Body, t: Node, rest: Body, inner: Body)
    requires Lists(mem, cells, body, done, t, rest) && Room(place, mem, rest)
    requires rest.Link? && Composite(rest.token) && inner == Flattened(place, rest.token.item.body)
    requires Grown(place, mem, mem', rest.token.item.body) && Numbered(mem') && mem'.Keys == cells'.Keys
    requires Kept(mem, cells, mem', cells', Ids(rest.token.item.body))
    requires rest.token.id in cells && Seg(mem', cells', cells[rest.token.id].val, inner, null)
    ensures rest.token.id in cells'
    ensures Lists(mem', cells', body, Then(done, WithBody(rest.token, inner)), cells'[rest.token.id].next, rest.next)
    ensures Room(place, mem', rest.next) && Grown(place, mem, mem', rest)
  {
    hide Seg, Distinct, Ids, ArrayIds, Kept, Grown, Room, Flattened;
    var tok, was := rest.token, rest.token.item.body;
    FirstIds(place, mem, rest);
    SegNode(mem, cells, t, rest, null);
    NestedApart(place, mem, rest);
    KeptAt(mem, cells, mem', cells', Ids(was), tok.id);
    SegKept(mem, cells, mem', cells', Ids(was), body, done, t);
    SegKept(mem, cells, mem', cells', Ids(was), cells[tok.id].next, rest.next, null);
    WithNode(mem', cells', t, tok, inner, rest.next);
    TokenDone(mem', cells', body, done, t, Link(WithBody(tok, inner), rest.next));
    SegIds(mem, cells, body, done, t);
    RoomLeft(place, mem, mem', was, rest.next, rest);
    GrownMore(place, mem, mem', was, rest);
  }

  lemma WithNode(mem: Memory, cells: map<nat, Cell>, t: Node, tok: Token, inner: Body, next: Body)
    requires Composite(tok) && tok.id in mem && tok.id in cells && mem[tok.id] == t && cells[tok.id].kind == KindOf(tok.item)
    requires Seg(mem, cells, cells[tok.id].val, inner, null) && Seg(mem, cells, cells[tok.id].next, next, null)
    ensures Seg(mem, cells, t, Link(WithBody(tok, inner), next), null)
  {
  }

  /** The numbers within a token, now and when it is flattened, are none of those of what has been done or is to do. */
  lemma NestedApart(place: nat -> nat, mem: Memory, rest: Body)
    requires Room(place, mem, rest) && rest.Link? && Composite(rest.token)
    ensures Ids(rest) <= mem.Keys
    ensures forall i :: i in Ids(Flattened(place, rest.token.item.body)) ==> i in Ids(rest.token.item.body) || i !in mem
    ensures ArrayIds(rest.token.item.body) !! ArrayIds(rest.next)
  {
    hide Flattened;
    FirstIds(place, mem, rest);
    FlattenedIds(place, rest.token.item.body);
    ArraysAreTokens(rest.token.item.body);
    ArraysAreTokens(rest.next);
  }

  lemma GrownMore(place: nat -> nat, mem: Memory, mem': Memory, part: Body, b: Body)
    requires Grown(place, mem, mem', part) && ArrayIds(part) <= ArrayIds(b)
    ensures Grown(place, mem, mem', b)
  {
  }

  /** A token that holds no others stays. */
  lemma AfterPlain(place: nat -> nat, mem: Memory, cells: map<nat, Cell>, body: Node?, done: Body, t: Node, rest: Body)
    requires Lists(mem, cells, body, done, t, rest) && Room(place, mem, rest) && rest.Link? && !Composite(rest.token)
    ensures rest.token.id in cells
    ensures Lists(mem, cells, body, Then(done, rest.token), cells[rest.token.id].next, rest.next)
    ensures Room(place, mem, rest.next)
  {
    hide Seg, Distinct, Ids, ArrayIds, Room;
    FirstIds(place, mem, rest);
    SegNode(mem, cells, t, rest, null);
    TokenDone(mem, cells, body, done, t, rest);
    NoIds();
  }

  /** What flattening one token comes to. */
  ghost predicate OneDone(place: nat -> nat, mem: Memory, cells: map<nat, Cell>, body: Node?, done: Body, rest: Body,
      mem': Memory, cells': map<nat, Cell>, done': Body, t': Node?, rest': Body) {
    && Lists(mem', cells', body, done', t', rest') && Room(place, mem', rest') && Grown(place, mem, mem', rest)
    && Kept(mem, cells, mem', cells', Ids(rest))
    && ArrayIds(rest') <= ArrayIds(rest) && Ids(rest') <= Ids(rest) + (mem'.Keys - mem.Keys)
    && Append(done', Flattened(place, rest')) == Append(done, Flattened(place, rest))
  }

  lemma ThenAppend(done: Body, t: Token, b: Body)
    ensures Append(Then(done, t), b) == Append(done, Link(t, b))
  {
    AppendAssociates(done, Link(t, End), b);
  }

  lemma {:induction false} FlattenedMore(place: nat -> nat, rest: Body)
    requires rest.Link? && rest.token.item.Array? && !AllLiterals(rest.token.item.body)
    ensures Flattened(place, rest) ==
      Link(Opener(rest.token.id), Flattened(place, Append(rest.token.item.body, Link(Closer(place(rest.token.id)), rest.next))))
  {
    FlattenAppend(place, rest.token.item.body, Link(Closer(place(rest.token.id)), rest.next));
  }

  lemma FlattenedFirst(place: nat -> nat, rest: Body)
    requires rest.Link? && !(rest.token.item.Array? && !AllLiterals(rest.token.item.body))
    ensures Flattened(place, rest) == Link(
      if Composite(rest.token) then WithBody(rest.token, Flattened(place, rest.token.item.body)) else rest.token,
      Flattened(place, rest.next))
  {
    hide AllLiterals;
  }

  lemma OneSpliced(place: nat -> nat, mem: Memory, cells: map<nat, Cell>, mem': Memory, cells': map<nat, Cell>,
      body: Node?, done: Body, t: Node, rest: Body, more: Body)
    requires Lists(mem, cells, body, done, t, rest) && Room(place, mem, rest)
    requires rest.Link? && rest.token.item.Array? && !AllLiterals(rest.token.item.body)
    requires more == Append(rest.token.item.body, Link(Closer(place(rest.token.id)), rest.next))
    requires mem'.Keys == mem.Keys + {place(rest.token.id)} && Numbered(mem') && forall i :: i in mem ==> mem'[i] == mem[i]
    requires Kept(mem, cells, mem', cells', {rest.token.id} + Ids(rest.token.item.body))
    requires Seg(mem', cells', t, Link(Opener(rest.token.id), more), null)
    ensures rest.token.id in cells'
    ensures OneDone(place, mem, cells, body, done, rest,
      mem', cells', Then(done, Opener(rest.token.id)), cells'[rest.token.id].next, more)
    ensures Composites(more) < Composites(rest)
  {
    hide Seg, Distinct, Ids, ArrayIds, Kept, Composites, AllLiterals, Flattened, Append, Lists, Room, Grown, Then;
    AfterSplice(place, mem, cells, mem', cells', body, done, t, rest, more);
    FirstIds(place, mem, rest);
    KeptLess(mem, cells, mem', cells', {rest.token.id} + Ids(rest.token.item.body), Ids(rest));
    FlattenedMore(place, rest);
    ThenAppend(done, Opener(rest.token.id), Flattened(place, more));
    assert place(rest.token.id) !in mem by { PlaceFree(place, mem, rest); }
  }

  lemma PlaceFree(place: nat -> nat, mem: Memory, rest: Body)
    requires Room(place, mem, rest) && rest.Link? && rest.token.item.Array?
    ensures place(rest.token.id) !in mem
  {
  }

  lemma OneNested(place: nat -> nat, mem: Memory, cells: map<nat, Cell>, mem': Memory, cells': map<nat, Cell>,
      body: Node?, done: Body, t: Node, rest: Body, inner: Body)
    requires Lists(mem, cells, body, done, t, rest) && Room(place, mem, rest) && rest.Link? && Composite(rest.token)
    requires (rest.token.item.Array? ==> AllLiterals(rest.token.item.body)) && inner == Flattened(place, rest.token.item.body)
    requires Grown(place, mem, mem', rest.token.item.body) && Numbered(mem') && mem'.Keys == cells'.Keys
    requires Kept(mem, cells, mem', cells', Ids(rest.token.item.body))
    requires rest.token.id in cells && Seg(mem', cells', cells[rest.token.id].val, inner, null)
    ensures rest.token.id in cells'
    ensures OneDone(place, mem, cells, body, done, rest,
      mem', cells', Then(done, WithBody(rest.token, inner)), cells'[rest.token.id].next, rest.next)
    ensures Composites(rest.next) < Composites(rest)
  {
    hide Seg, Distinct, Ids, ArrayIds, Kept, Composites, AllLiterals, Flattened, Append, Lists, Room, Grown, Then;
    AfterNested(place, mem, cells, mem', cells', body, done, t, rest, inner);
    FirstIds(place, mem, rest);
    KeptLess(mem, cells, mem', cells', Ids(rest.token.item.body), Ids(rest));
    FlattenedFirst(place, rest);
    ThenAppend(done, WithBody(rest.token, inner), Flattened(place, rest.next));
  }

  lemma OnePlain(place: nat -> nat, mem: Memory, cells: map<nat, Cell>, body: Node?, done: Body, t: Node, rest: Body)
    requires Lists(mem, cells, body, done, t, rest) && Room(place, mem, rest) && rest.Link? && !Composite(rest.token)
    requires cells.Keys == mem.Keys
    ensures rest.token.id in cells
    ensures OneDone(place, mem, cells, body, done, rest,
      mem, cells, Then(done, rest.token), cells[rest.token.id].next, rest.next)
    ensures Composites(rest.next) == Composites(rest)
  {
    hide Seg, Distinct, Ids, ArrayIds, Composites, AllLiterals, Flattened, Append, Lists, Room, Then;
    AfterPlain(place, mem, cells, body, done, t, rest);
    FirstIds(place, mem, rest);
    FlattenedFirst(place, rest);
    ThenAppend(done, rest.token, Flattened(place, rest.next));
  }

  lemma ListNode(mem: Memory, cells: map<nat, Cell>, body: Node?, done: Body, t: Node?, rest: Body)
    requires Lists(mem, cells, body, done, t, rest)
    ensures t == null <==> rest.End?
    ensures rest.Link? ==>
      && rest.token.id in mem && t == mem[rest.token.id] && Seg(mem, cells, t, Link(rest.token, rest.next), null)
      && rest.token.id in cells && cells[rest.token.id].kind == KindOf(rest.token.item)
      && (Composite(rest.token) ==> Seg(mem, cells, cells[rest.token.id].val, rest.token.item.body, null))
  {
    SegNode(mem, cells, t, rest, null);
  }

  lemma NodesMore(mem: Memory, ids: set<nat>, more: set<nat>)
    requires ids <= more <= mem.Keys
    ensures Nodes(mem, ids) <= Nodes(mem, more)
  {
  }

  lemma RoomIs(place: nat -> nat, mem: Memory, b: Body)
    requires Room(place, mem, b)
    ensures Distinct(b) && Numbered(mem) && Ids(b) <= mem.Keys
  {
  }

  /** One turn of the loop. */
  method FlattenToken(place: nat -> nat, t: Node, ghost mem: Memory, ghost body: Node?, ghost done: Body, ghost rest: Body)
    returns (ghost mem': Memory, ghost done': Body, ghost rest': Body)
    requires Lists(mem, Cells(mem), body, done, t, rest) && Room(place, mem, rest) && Ids(rest) <= mem.Keys
    modifies Nodes(mem, Ids(rest))
    ensures OneDone(place, mem, old(Cells(mem)), body, done, rest, mem', Cells(mem'), done', t.next, rest')
    ensures forall i :: i in mem' && i !in mem ==> fresh(mem'[i])
    ensures Composites(rest') < Composites(rest) || (Composites(rest') == Composites(rest) && Count(rest') < Count(rest))
    decreases Composites(rest), 0
  {
    hide Seg, Distinct, Ids, ArrayIds, Kept, Composites, AllLiterals, Flattened, Append, Lists, Room, Grown, Then, OneDone,
      Nodes, Cells, Numbered;
    ghost var cells := Cells(mem);
    ListNode(mem, cells, body, done, t, rest);
    ghost var tok := rest.token;
    FirstIds(place, mem, rest);
    RoomIs(place, mem, rest);
    var literals := true;
    if t.kind.ArrayOf? {
      literals := AllLiteralTokens(t.val, mem, tok.item.body);
    }
    if !literals {
      done', rest' := Then(done, Opener(tok.id)), Append(tok.item.body, Link(Closer(place(tok.id)), rest.next));
      PlaceFree(place, mem, rest);
      NodesMore(mem, {tok.id} + Ids(tok.item.body), Ids(rest));
      mem' := Splice(t, mem, tok, rest.next, place(t.id));
      OneSpliced(place, mem, cells, mem', Cells(mem'), body, done, t, rest, rest');
    } else if t.kind.ArrayOf? || t.kind.ProcOf? {
      ghost var inner := Flattened(place, tok.item.body);
      done', rest' := Then(done, WithBody(tok, inner)), rest.next;
      NodesMore(mem, Ids(tok.item.body), Ids(rest));
      mem' := FlattenSomeArrays(place, t.val, mem, tok.item.body);
      KeysGrow(place, mem, mem', tok.item.body);
      OneNested(place, mem, cells, mem', Cells(mem'), body, done, t, rest, inner);
    } else {
      mem', done', rest' := mem, Then(done, tok), rest.next;
      OnePlain(place, mem, cells, body, done, t, rest);
    }
  }

  /** What holds whenever the loop comes round. */
  ghost predicate Going(place: nat -> nat, mem: Memory, cells: map<nat, Cell>, b: Body,
      mem': Memory, cells': map<nat, Cell>, body: Node?, done: Body, t: Node?, rest: Body) {
    && Lists(mem', cells', body, done, t, rest) && Room(place, mem', rest) && Grown(place, mem, mem', b)
    && Kept(mem, cells, mem', cells', Ids(b))
    && ArrayIds(rest) <= ArrayIds(b) && Ids(rest) <= Ids(b) + (mem'.Keys - mem.Keys)
    && Append(done, Flattened(place, rest)) == Flattened(place, b)
  }

  lemma Starts(place: nat -> nat, mem: Memory, cells: map<nat, Cell>, b: Body, body: Node?)
    requires Seg(mem, cells, body, b, null) && Room(place, mem, b) && mem.Keys == cells.Keys
    ensures Going(place, mem, cells, b, mem, cells, body, End, body, b)
  {
    hide Distinct, ArrayIds, Flattened, AllLiterals;
  }

  lemma GoesOn(place: nat -> nat, mem: Memory, cells: map<nat, Cell>, b: Body,
      mem1: Memory, cells1: map<nat, Cell>, body: Node?, done: Body, t: Node?, rest: Body,
      mem2: Memory, cells2: map<nat, Cell>, done': Body, t': Node?, rest': Body)
    requires Going(place, mem, cells, b, mem1, cells1, body, done, t, rest)
    requires OneDone(place, mem1, cells1, body, done, rest, mem2, cells2, done', t', rest')
    ensures Going(place, mem, cells, b, mem2, cells2, body, done', t', rest')
    ensures mem1.Keys <= mem2.Keys && forall i :: i in mem1 ==> mem2[i] == mem1[i]
  {
    hide Seg, Distinct, Ids, ArrayIds, Kept, Flattened, Append, Lists, Room, Grown;
    KeptOn(mem, cells, mem1, cells1, mem2, cells2, Ids(b), Ids(rest));
    KeptLess(mem, cells, mem2, cells2, Ids(b) + Ids(rest), Ids(b));
    GrownOn(place, mem, mem1, mem2, b, rest);
    KeysGrow(place, mem, mem1, b);
    KeysGrow(place, mem1, mem2, rest);
  }

  lemma KeysGrow(place: nat -> nat, mem: Memory, mem': Memory, b: Body)
    requires Grown(place, mem, mem', b)
    ensures mem.Keys <= mem'.Keys && forall i :: i in mem ==> mem'[i] == mem[i]
  {
  }

  lemma Ends(place: nat -> nat, mem: Memory, cells: map<nat, Cell>, b: Body,
      mem': Memory, cells': map<nat, Cell>, body: Node?, done: Body, rest: Body)
    requires Going(place, mem, cells, b, mem', cells', body, done, null, rest)
    ensures Seg(mem', cells', body, Flattened(place, b), null)
    ensures Grown(place, mem, mem', b) && Numbered(mem') && Kept(mem, cells, mem', cells', Ids(b))
  {
    hide Distinct, Ids, ArrayIds, Kept, Flattened, Grown, Seg;
    ListNode(mem', cells', body, done, null, rest);
    assert Flattened(place, rest) == End by { FlattenedEnd(place); }
    AppendEnd(done);
  }

  lemma FlattenedEnd(place: nat -> nat)
    ensures Flattened(place, End) == End
  {
  }

  /** FlattenSomeArrays: the nodes of the list, and those for the brackets, hold what the body is flattened to. */
  method FlattenSomeArrays(place: nat -> nat, body: Node?, ghost mem: Memory, ghost b: Body) returns (ghost mem': Memory)
    requires Seg(mem, Cells(mem), body, b, null) && Room(place, mem, b) && Ids(b) <= mem.Keys
    modifies Nodes(mem, Ids(b))
    ensures Seg(mem', Cells(mem'), body, Flattened(place, b), null)
    ensures Grown(place, mem, mem', b) && Numbered(mem') && Kept(mem, old(Cells(mem)), mem', Cells(mem'), Ids(b))
    ensures forall i :: i in mem' && i !in mem ==> fresh(mem'[i])
    decreases Composites(b), 1
  {
    hide Seg, Distinct, Ids, ArrayIds, Kept, Composites, AllLiterals, Flattened, Append, Lists, Room, Grown, Then, OneDone,
      Nodes, Cells, Numbered, Going, Count;
    ghost var cells := Cells(mem);
    var t := body;
    mem' := mem;
    ghost var done, rest := End, b;
    Starts(place, mem, cells, b, body);
    while t != null
      invariant Going(place, mem, cells, b, mem', Cells(mem'), body, done, t, rest)
      invariant Composites(rest) <= Composites(b)
      invariant forall i :: i in mem' && i !in mem ==> fresh(mem'[i])
      decreases Composites(rest), Count(rest)
    {
      ghost var mem1, cells1, done1, rest1 := mem', Cells(mem'), done, rest;
      InReach(place, mem, cells, b, mem1, cells1, body, done, t, rest);
      mem', done, rest := FlattenToken(place, t, mem', body, done, rest);
      GoesOn(place, mem, cells, b, mem1, cells1, body, done1, t, rest1, mem', Cells(mem'), done, t.next, rest);
      t := t.next;
    }
    Ends(place, mem, cells, b, mem', Cells(mem'), body, done, rest);
  }

  lemma InReach(place: nat -> nat, mem: Memory, cells: map<nat, Cell>, b: Body,
      mem': Memory, cells': map<nat, Cell>, body: Node?, done: Body, t: Node?, rest: Body)
    requires Going(place, mem, cells, b, mem', cells', body, done, t, rest) && Ids(b) <= mem.Keys
    ensures Lists(mem', cells', body, done, t, rest) && Room(place, mem', rest) && Ids(rest) <= mem'.Keys
    ensures forall n :: n in Nodes(mem', Ids(rest)) ==>
      n in Nodes(mem, Ids(b)) || exists i :: i in mem' && i !in mem && n == mem'[i]
  {
    hide Seg, Distinct, Ids, ArrayIds, Kept, Flattened, Append, Lists;
  }
}
