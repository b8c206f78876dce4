/**
  EmitBody: a body is flattened, its size is checked, and both passes are run over it.
 */
module PswEmit {
  import opened PswLayout
  import opened PswShare
  import opened PswFlatten
  import W = PswWrap
  import S = PswSplice

  /** The new nodes are other nodes than those there are, and than one another. */
  predicate Spare(place: nat -> nat, b: Body) {
    && (forall i :: i in S.ArrayIds(b) ==> place(i) !in S.Ids(b))
    && (forall i, j :: i in S.ArrayIds(b) && j in S.ArrayIds(b) && place(i) == place(j) ==> i == j)
  }

  // Flattening keeps tokens apart and texts in order

  lemma {:induction false} AppendOk(a: Body, b: Body)
    requires BodyOk(a) && BodyOk(b)
    ensures BodyOk(Append(a, b))
    decreases a
  {
    hide OkBelow;
    if a.Link? { AppendOk(a.next, b); }
  }

  lemma BracketsOk(id: nat)
    ensures OkBelow(Opener(id)) && OkBelow(Closer(id))
  {
    assert PswString.WellFormed("[") && PswString.WellFormed("]");
  }

  lemma {:induction false} FlattenedOk(place: nat -> nat, b: Body)
    requires BodyOk(b)
    ensures BodyOk(Flattened(place, b))
    decreases b
  {
    hide AllLiterals, TextOk;
    if b.Link? {
      var t := b.token;
      FlattenedOk(place, b.next);
      if Composite(t) {
        FlattenedOk(place, t.item.body);
        ComposedOk(t, Flattened(place, t.item.body));
        BracketsOk(t.id);
        BracketsOk(place(t.id));
        AppendOk(Flattened(place, t.item.body), Link(Closer(place(t.id)), Flattened(place, b.next)));
      }
    }
  }

  lemma ComposedOk(t: Token, b: Body)
    requires Composite(t) && BodyOk(b)
    ensures OkBelow(Token(t.id, Array(b))) && OkBelow(Token(t.id, Proc(b)))
  {
  }

  lemma {:induction false} FlattenedDistinct(place: nat -> nat, b: Body)
    requires S.Distinct(b) && Spare(place, b)
    ensures S.Distinct(Flattened(place, b))
    decreases b
  {
    hide AllLiterals;
    if b.Link? {
      var t := b.token;
      FirstApart(place, b);
      FlattenedDistinct(place, b.next);
      if Composite(t) {
        var inner, next := Flattened(place, t.item.body), Flattened(place, b.next);
        FlattenedDistinct(place, t.item.body);
        if t.item.Array? && !AllLiterals(t.item.body) {
          BracketsDistinct(place, t, inner, next);
        }
      }
    }
  }

  /** What the first token and the others are flattened to have no nodes in common. */
  lemma FirstApart(place: nat -> nat, b: Body)
    requires b.Link? && S.Distinct(b) && Spare(place, b)
    ensures var t := b.token; var inner, next := Flattened(place, BodyOf(t)), Flattened(place, b.next);
      && Spare(place, b.next) && Spare(place, BodyOf(t)) && S.Distinct(b.next) && S.Distinct(BodyOf(t))
      && t.id !in S.Ids(inner) && t.id !in S.Ids(next) && S.Ids(inner) !! S.Ids(next)
      && (t.item.Array? ==> place(t.id) != t.id && place(t.id) !in S.Ids(inner) && place(t.id) !in S.Ids(next))
  {
    hide Flattened;
    var t := b.token;
    S.FlattenedIds(place, b.next);
    S.FlattenedIds(place, BodyOf(t));
    S.ArraysAreTokens(b.next);
    S.ArraysAreTokens(BodyOf(t));
    IdsOf(b);
  }

  lemma IdsOf(b: Body)
    requires b.Link?
    ensures S.Ids(b) == {b.token.id} + S.Ids(BodyOf(b.token)) + S.Ids(b.next)
    ensures S.ArrayIds(b) == (if b.token.item.Array? then {b.token.id} else {}) + S.ArrayIds(BodyOf(b.token)) + S.ArrayIds(b.next)
  {
  }

  lemma BracketsDistinct(place: nat -> nat, t: Token, inner: Body, next: Body)
    requires S.Distinct(inner) && S.Distinct(next) && S.Ids(inner) !! S.Ids(next) && t.id !in S.Ids(inner) + S.Ids(next)
    requires place(t.id) != t.id && place(t.id) !in S.Ids(inner) + S.Ids(next)
    ensures S.Distinct(Link(Opener(t.id), Append(inner, Link(Closer(place(t.id)), next))))
  {
    hide S.Ids;
    var rest := Link(Closer(place(t.id)), next);
    S.CloserIds(place(t.id), next);
    S.AppendIds(inner, rest);
    S.AppendDistinct(inner, rest);
  }

  // In the list of all tokens, each is once

  function Bag(ts: seq<Token>): multiset<nat> {
    if ts == [] then multiset{} else multiset{ts[0].id} + Bag(ts[1..])
  }

  function BodyBag(b: Body): multiset<nat>
    decreases b
  {
    if b.End? then multiset{} else
      multiset{b.token.id} + (if Composite(b.token) then BodyBag(b.token.item.body) else multiset{}) + BodyBag(b.next)
  }

  function WorkBag(w: seq<Token>): multiset<nat> {
    if w == [] then multiset{} else BodyBag(BodyOf(w[0])) + WorkBag(w[1..])
  }

  lemma {:induction false} BagAppend(a: seq<Token>, b: seq<Token>)
    ensures Bag(a + b) == Bag(a) + Bag(b)
    decreases |a|
  {
    if a == [] {
      assert a + b == b;
    } else {
      assert (a + b)[1..] == a[1..] + b;
      BagAppend(a[1..], b);
    }
  }

  lemma PushFirst(b: Body, w: seq<Token>)
    requires b.Link?
    ensures Push(b, w) == Push(b.next, if Composite(b.token) then [b.token] + w else w)
  {
  }

  lemma {:induction false} PushBag(b: Body, w: seq<Token>)
    ensures Bag(Toks(b)) + WorkBag(Push(b, w)) == BodyBag(b) + WorkBag(w)
    decreases b
  {
    hide Push, Bag, BodyBag, WorkBag, Toks;
    if b.Link? {
      var t := b.token;
      var w' := if Composite(t) then [t] + w else w;
      PushFirst(b, w);
      PushBag(b.next, w');
      FirstBags(b, w);
      Shuffle(multiset{t.id}, Bag(Toks(b.next)), WorkBag(Push(b, w)), BodyBag(b.next), BodyBag(BodyOf(t)), WorkBag(w));
    } else {
      NoTokens(b, w);
      NoBags(b);
    }
  }

  lemma FirstBags(b: Body, w: seq<Token>)
    requires b.Link?
    ensures Bag(Toks(b)) == multiset{b.token.id} + Bag(Toks(b.next))
    ensures BodyBag(b) == multiset{b.token.id} + BodyBag(BodyOf(b.token)) + BodyBag(b.next)
    ensures WorkBag(if Composite(b.token) then [b.token] + w else w) == BodyBag(BodyOf(b.token)) + WorkBag(w)
  {
    assert Toks(b)[1..] == Toks(b.next);
    assert ([b.token] + w)[1..] == w;
  }

  lemma NoBags(b: Body)
    requires b.End?
    ensures Bag(Toks(b)) == multiset{} && BodyBag(b) == multiset{} && NumTokens(b) == 0
  {
  }

  lemma Shuffle(x: multiset<nat>, a: multiset<nat>, p: multiset<nat>, b: multiset<nat>, c: multiset<nat>, w: multiset<nat>)
    requires a + p == b + (c + w)
    ensures (x + a) + p == (x + c + b) + w
  {
    assert (x + a) + p == x + (a + p);
  }

  lemma {:induction false} FlatBag(w: seq<Token>)
    ensures Bag(Flat(w)) == WorkBag(w)
    decreases WorkCount(w), |w|
  {
    hide BodyBag;
    if w != [] {
      var c := BodyOf(w[0]);
      PushCount(c, w[1..]);
      NoTokens(c, w[1..]);
      PushBag(c, w[1..]);
      FlatBag(Push(c, w[1..]));
      BagAppend(Toks(c), Flat(Push(c, w[1..])));
    }
  }

  lemma {:induction false} DistinctBag(b: Body)
    requires S.Distinct(b)
    ensures forall i :: BodyBag(b)[i] <= 1 && (i in BodyBag(b) <==> i in S.Ids(b))
    decreases b
  {
    if b.Link? {
      DistinctBag(b.next);
      if Composite(b.token) { DistinctBag(b.token.item.body); }
    }
  }

  lemma {:induction false} BagDistinct(ts: seq<Token>)
    requires forall i :: Bag(ts)[i] <= 1
    ensures W.Distinct(ts)
    decreases |ts|
  {
    if ts != [] {
      assert forall i :: Bag(ts[1..])[i] <= Bag(ts)[i];
      BagDistinct(ts[1..]);
      forall j | 0 < j < |ts|
        ensures ts[j].id != ts[0].id
      {
        InBag(ts[1..], j - 1);
      }
    }
  }

  lemma {:induction false} InBag(ts: seq<Token>, j: nat)
    requires j < |ts|
    ensures ts[j].id in Bag(ts)
    decreases j
  {
    if j > 0 { InBag(ts[1..], j - 1); }
  }

  lemma AllDistinct(b: Body)
    requires S.Distinct(b)
    ensures W.Distinct(All(b))
  {
    hide Flat, Bag, BodyBag, S.Distinct, W.Distinct;
    PushBag(b, []);
    FlatBag(Push(b, []));
    BagAppend(Toks(b), Flat(Push(b, [])));
    assert WorkBag([]) == multiset{};
    DistinctBag(b);
    assert Bag(All(b)) == BodyBag(b);
    BagDistinct(All(b));
  }

  /** What comes of a wrap. */
  datatype Output = Output(large: bool, fields: seq<W.Field>, lens: seq<nat>, size: nat, records: seq<Rec>, strings: seq<seq<int>>)

  /** The sizes agree, and large is set as they demand. */
  predicate Sized(flat: Body, w: Output) {
    && w.lens == W.Lengths(w.strings) && w.size == DPS_BINOBJ_SIZE * |w.records| + |Concat(w.strings)|
    && (w.large <==> NumTokens(flat) > 0xff || w.size > 0xffff)
  }

  predicate ReadBack(o: Options, flat: Body, w: Output)
    requires BodyOk(flat)
  {
    Decode(w.records, Concat(w.strings), 0, NumTokens(flat), Depth(flat)) == Some(Meaning(o, flat))
  }

  /** The tokens a list holds, for the passes to go over. */
  method ReadList(n: S.Node?, ghost mem: S.Memory, ghost b: Body) returns (r: Body)
    requires S.Seg(mem, S.Cells(mem), n, b, null) && S.Numbered(mem)
    ensures r == b
    decreases b
  {
    hide S.Seg, S.Cells;
    S.SegNode(mem, S.Cells(mem), n, b, null);
    if n == null { return End; }
    var inner := End;
    if !n.kind.Plain? {
      inner := ReadList(n.val, mem, b.token.item.body);
    }
    var next := ReadList(n.next, mem, b.next);
    var item := match n.kind case Plain(x) => x case ArrayOf => Array(inner) case ProcOf => Proc(inner);
    r := Link(Token(n.id, item), next);
  }

  /** The check of the size and both passes, over a flattened body. */
  method Emit(o: Options, flat: Body) returns (w: Output)
    requires BodyOk(flat) && S.Distinct(flat)
    ensures Sized(flat, w)
    ensures AllOk(All(flat)) && (ReadBack(o, flat, w) <==> Shares(Literals(o, All(flat))))
  {
    hide All, Literals, Chunks, Concat, Shares, BodyOk, Decode, Depth, S.Distinct, W.Distinct;
    AllTexts(flat);
    AllDistinct(flat);
    var wrap := new W.Wrap(o);
    var large := NumTokens(flat) > 0xff;
    if !large {
      large := wrap.CheckSize(flat, All(flat));
    }
    var fields, lens, size, records, strings := W.Generate(o, flat);
    w := Output(large, fields, lens, size, records, strings);
  }

  /** What the flattened tokens and the output of a wrap are. */
  ghost predicate Emitted(o: Options, place: nat -> nat, b: Body, flat: Body, w: Output) {
    && flat == Flattened(place, b) && OnlyLiteralArrays(flat) && (NoBrackets(b) ==> Regroup(flat) == (b, End))
    && Sized(flat, w) && BodyOk(flat) && AllOk(All(flat)) && (ReadBack(o, flat, w) <==> Shares(Literals(o, All(flat))))
  }

  /**
    EmitBody.  The list in memory is flattened by relinking its nodes, and the passes go over what it then holds.
    What is written says what the flattened tokens mean just when each stands for the bytes at its entry;
    matching the brackets of those gives the tokens there were.  Nothing is written for an empty body.
   */
  method EmitBody(o: Options, place: nat -> nat, body: S.Node?, ghost mem: S.Memory, ghost b: Body)
      returns (flat: Body, w: Output, ghost mem': S.Memory)
    requires S.Seg(mem, S.Cells(mem), body, b, null) && S.Room(place, mem, b) && S.Ids(b) <= mem.Keys && BodyOk(b)
    modifies S.Nodes(mem, S.Ids(b))
    ensures S.Seg(mem', S.Cells(mem'), body, flat, null) && S.Grown(place, mem, mem', b)
    ensures S.Kept(mem, old(S.Cells(mem)), mem', S.Cells(mem'), S.Ids(b))
    ensures Emitted(o, place, b, flat, w) && (b.End? ==> w.records == [] && w.size == 0)
  {
    hide S.Seg, S.Cells, S.Grown, S.Kept, S.Nodes, S.Ids, S.Distinct, Flattened, Emitted, BodyOk;
    S.SegNode(mem, S.Cells(mem), body, b, null);
    if body == null {
      flat, w, mem' := End, Output(false, [], [], 0, [], []), mem;
      EmptyBody(o, place, b, mem, S.Cells(mem));
      return;
    }
    RoomIsSpare(place, mem, b);
    FlattenedOk(place, b);
    FlattenedDistinct(place, b);
    mem' := S.FlattenSomeArrays(place, body, mem, b);
    flat := ReadList(body, mem', Flattened(place, b));
    w := Emit(o, flat);
    IsEmitted(o, place, b, flat, w);
  }

  lemma RoomIsSpare(place: nat -> nat, mem: S.Memory, b: Body)
    requires S.Room(place, mem, b)
    ensures S.Distinct(b) && Spare(place, b)
  {
    hide S.Distinct, S.Ids, S.ArrayIds;
  }

  lemma IsEmitted(o: Options, place: nat -> nat, b: Body, flat: Body, w: Output)
    requires flat == Flattened(place, b) && Sized(flat, w) && BodyOk(flat) && AllOk(All(flat))
    requires ReadBack(o, flat, w) <==> Shares(Literals(o, All(flat)))
    ensures Emitted(o, place, b, flat, w)
  {
    hide Flattened, OnlyLiteralArrays, NoBrackets, Regroup, Sized, BodyOk, AllOk, All, ReadBack, Shares, Literals;
    Flattens(place, place, b);
    if NoBrackets(b) { Regroups(place, b); }
  }

  lemma EmptyBody(o: Options, place: nat -> nat, b: Body, mem: S.Memory, cells: map<nat, S.Cell>)
    requires b == End && mem.Keys == cells.Keys
    ensures Emitted(o, place, b, End, Output(false, [], [], 0, [], [])) && S.Seg(mem, cells, null, End, null)
    ensures S.Grown(place, mem, mem, b) && S.Kept(mem, cells, mem, cells, S.Ids(b))
  {
    assert Flattened(place, End) == End && Toks(End) == [] && Push(End, []) == [] && Flat([]) == [];
    assert Regroup(End) == (End, End);
  }

  // What is executed, by the meaning of the records

  /** A name that is executed. */
  predicate Executed(v: Val) {
    (v.VName? || v.VSystemName? || v.VUserName?) && v.exec
  }

  /** None of these, nor of those in arrays among them, is executed. */
  predicate AtRest(vs: seq<Val>) {
    vs == [] || (!Executed(vs[0]) && (vs[0].VArray? && !vs[0].exec ==> AtRest(vs[0].elements)) && AtRest(vs[1..]))
  }

  /** So it is in every array among them, at any depth. */
  predicate ArraysAtRest(vs: seq<Val>) {
    vs == [] || ((vs[0].VArray? ==> ArraysAtRest(vs[0].elements) && (!vs[0].exec ==> AtRest(vs[0].elements))) && ArraysAtRest(vs[1..]))
  }

  lemma {:induction false} AtRestIff(o: Options, b: Body)
    requires BodyOk(b)
    ensures AllLiterals(b) <==> AtRest(Meaning(o, b))
    decreases b
  {
    if b.Link? {
      if Composite(b.token) { AtRestIff(o, b.token.item.body); }
      AtRestIff(o, b.next);
      FirstMeaning(o, b);
    }
  }

  lemma {:induction false} ArraysAtRestIff(o: Options, b: Body)
    requires BodyOk(b)
    ensures OnlyLiteralArrays(b) <==> ArraysAtRest(Meaning(o, b))
    decreases b
  {
    hide AllLiterals, AtRest;
    if b.Link? {
      if Composite(b.token) {
        ArraysAtRestIff(o, b.token.item.body);
        AtRestIff(o, b.token.item.body);
      }
      ArraysAtRestIff(o, b.next);
      FirstMeaning(o, b);
    }
  }

  lemma FirstMeaning(o: Options, b: Body)
    requires b.Link? && BodyOk(b)
    ensures Meaning(o, b) != [] && Meaning(o, b)[0] == MeaningOf(o, b.token) && Meaning(o, b)[1..] == Meaning(o, b.next)
  {
    hide MeaningOf;
  }

  /** After flattening no array in what is meant has anything in it that is executed; nothing is changed just when it was so before. */
  lemma FlatAtRest(o: Options, place: nat -> nat, b: Body)
    requires BodyOk(b)
    ensures BodyOk(Flattened(place, b)) && ArraysAtRest(Meaning(o, Flattened(place, b)))
    ensures Flattened(place, b) == b <==> ArraysAtRest(Meaning(o, b))
  {
    hide Flattened, Meaning, ArraysAtRest, OnlyLiteralArrays;
    FlattenedOk(place, b);
    FlattenedLiteral(place, b);
    ArraysAtRestIff(o, Flattened(place, b));
    ArraysAtRestIff(o, b);
    if OnlyLiteralArrays(b) { NothingToFlatten(place, b); }
  }
}
