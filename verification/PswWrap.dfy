/**
  The passes of the wrap compiler: one that assigns addresses and declares the fields of the record, and
  one that writes their contents.
 */
module PswWrap {
  import opened PswLayout
  import opened PswShare
  import PswString
  import PswDict

  datatype Field = Generic | RealField

  function FieldOf(t: Token): Field {
    if t.item.Real? then RealField else Generic
  }

  function Fields(ts: seq<Token>): seq<Field> {
    seq(|ts|, i requires 0 <= i < |ts| => FieldOf(ts[i]))
  }

  /** Those of the first k tokens. */
  function FieldsTo(all: seq<Token>, k: nat): seq<Field>
    requires k <= |all|
  {
    Fields(all[..k])
  }

  function LiteralsTo(o: Options, all: seq<Token>, k: nat): seq<Token>
    requires k <= |all| && AllOk(all)
  {
    Literals(o, all[..k])
  }

  /** No two tokens are in the same place of memory. */
  predicate Distinct(ts: seq<Token>) {
    forall i, j :: 0 <= i < j < |ts| ==> ts[i].id != ts[j].id
  }

  /**
    The first k of all tokens have been visited, and those on the worklist w found among them: the bodies of
    all others are placed, and the well-known names are tagged.
   */
  ghost predicate Visited(o: Options, m: Places, all: seq<Token>, k: nat, w: seq<Token>) {
    && k <= |all|
    && (forall i :: 0 <= i < k ==> (Composite(all[i]) ==> all[i] in w || BodyPlaced(m, all, all[i])) && NamePlaced(o, m, all[i]))
    && (forall t :: t in w ==> Composite(t) && t in all[..k])
  }

  lemma PlaceElsewhere(o: Options, m: Places, id: nat, v: int, all: seq<Token>, t: Token)
    requires t.id != id
    ensures BodyPlaced(m[id := v], all, t) <==> BodyPlaced(m, all, t)
    ensures NamePlaced(o, m[id := v], t) <==> NamePlaced(o, m, t)
  {
    hide BodyOf, Toks, NumTokens;
  }

  lemma DistinctToken(all: seq<Token>, k: nat, i: nat)
    requires Distinct(all) && i < k < |all|
    ensures all[i].id != all[k].id
  {
  }

  /** Behind the first k tokens come those of b, and of the worklist once b is on it. */
  predicate Ahead(all: seq<Token>, k: nat, b: Body, w: seq<Token>) {
    k <= |all| && all == all[..k] + (Toks(b) + Flat(Push(b, w)))
  }

  /** Behind the first k tokens come those of the worklist. */
  predicate AheadWork(all: seq<Token>, k: nat, w: seq<Token>) {
    k <= |all| && all == all[..k] + Flat(w)
  }

  /** One more token is visited. */
  lemma VisitOne(o: Options, m: Places, m': Places, all: seq<Token>, k: nat, w: seq<Token>)
    requires Visited(o, m, all, k, w) && k < |all| && Distinct(all)
    requires m' == if (all[k].item.Name? || all[k].item.LitName?) && Text(all[k]) in o.wellKnown
      then m[all[k].id := o.wellKnown[Text(all[k])]] else m
    ensures Visited(o, m', all, k + 1, if Composite(all[k]) then [all[k]] + w else w)
  {
    hide BodyPlaced, NamePlaced;
    var w' := if Composite(all[k]) then [all[k]] + w else w;
    forall i | 0 <= i < k
      ensures (Composite(all[i]) ==> all[i] in w' || BodyPlaced(m', all, all[i])) && NamePlaced(o, m', all[i])
    {
      if m' != m { PlaceElsewhere(o, m, all[k].id, o.wellKnown[Text(all[k])], all, all[i]); }
    }
    assert NamePlaced(o, m', all[k]) by { Tagged(o, m, m', all[k]); }
    assert all[..k + 1] == all[..k] + [all[k]];
  }

  lemma Tagged(o: Options, m: Places, m': Places, t: Token)
    requires m' == if (t.item.Name? || t.item.LitName?) && Text(t) in o.wellKnown then m[t.id := o.wellKnown[Text(t)]] else m
    ensures NamePlaced(o, m', t)
  {
  }

  /** The first token of the worklist is taken off it, and its body placed where the next record will be. */
  lemma PlaceBody(o: Options, m: Places, all: seq<Token>, k: nat, w: seq<Token>)
    requires Visited(o, m, all, k, w) && w != [] && Distinct(all) && AheadWork(all, k, w)
    ensures Visited(o, m[w[0].id := DPS_BINOBJ_SIZE * k], all, k, w[1..])
  {
    hide Flat, NamePlaced, AheadWork, Ahead;
    var t := w[0];
    var m' := m[t.id := DPS_BINOBJ_SIZE * k];
    assert t in w;
    var j :| 0 <= j < k && all[j] == t;
    BodyNext(all, k, w);
    forall i | 0 <= i < k
      ensures (Composite(all[i]) ==> all[i] in w[1..] || BodyPlaced(m', all, all[i])) && NamePlaced(o, m', all[i])
    {
      if i != j {
        assert all[i].id != t.id by { if i < j { DistinctToken(all, j, i); } else { DistinctToken(all, i, j); } }
        PlaceElsewhere(o, m, t.id, DPS_BINOBJ_SIZE * k, all, all[i]);
        assert w == [t] + w[1..];
      } else {
        CompositeName(o, m', t);
      }
    }
    forall u | u in w[1..]
      ensures u in w
    {
    }
  }

  lemma CompositeName(o: Options, m: Places, t: Token)
    requires Composite(t)
    ensures NamePlaced(o, m, t)
  {
  }

  /** The tokens of the body of the worklist's first token come next. */
  lemma BodyNext(all: seq<Token>, k: nat, w: seq<Token>)
    requires AheadWork(all, k, w) && w != []
    ensures var b := BodyOf(w[0]);
      k + NumTokens(b) <= |all| && all[k..k + NumTokens(b)] == Toks(b) && Ahead(all, k, b, w[1..])
  {
    hide Toks, Push, BodyOf, NumTokens;
    var b := BodyOf(w[0]);
    assert Flat(w) == Toks(b) + Flat(Push(b, w[1..]));
    assert all[k..] == Flat(w);
  }

  // Strings

  /**
    The first i of the list are at their entries, from base on; the dictionary holds dict, and at is the next
    free place.
   */
  ghost predicate Laid(m: Places, dict: map<string, int>, count: nat, at: int, base: int, l: seq<Token>, i: nat)
    requires AllOk(l)
  {
    && i <= |l| && AllOk(l[i..])
    && var e := Entries(l, map[], 0, base);
       (forall j :: 0 <= j < i ==> l[j].id in m && m[l[j].id] == e[j]) && e[i..] == Entries(l[i..], dict, count, at)
  }

  /** One more is at its entry: the place of its text if that is known, and the next free one if not. */
  lemma LayOne(m: Places, dict: map<string, int>, count: nat, at: int, base: int, l: seq<Token>, i: nat)
    requires AllOk(l) && i < |l| && Distinct(l) && Laid(m, dict, count, at, base, l, i)
    ensures Text(l[i]) in dict ==> Laid(m[l[i].id := dict[Text(l[i])]], dict, count, at, base, l, i + 1)
    ensures Text(l[i]) !in dict && count <= MAXSTRINGS ==>
      Laid(m[l[i].id := at], dict[Text(l[i]) := at], count + 1, at + |Content(l[i])|, base, l, i + 1)
    ensures Text(l[i]) !in dict && count > MAXSTRINGS ==>
      Laid(m[l[i].id := at], dict, count, at + |Content(l[i])|, base, l, i + 1)
  {
    hide Content, Text, TextOk;
    var e := Entries(l, map[], 0, base);
    assert l[i..][0] == l[i] && l[i..][1..] == l[i + 1..];
    assert e[i..][0] == e[i] && e[i..][1..] == e[i + 1..];
  }

  /** c has been laid out of a list of which l is left, keys and count being what the dictionary holds. */
  ghost predicate Part(all: seq<Token>, c: seq<seq<int>>, l: seq<Token>, keys: set<string>, count: nat)
    requires AllOk(all) && AllOk(l)
  {
    c + Chunks(l, keys, count) == Chunks(all, {}, 0)
  }

  lemma PartStarts(all: seq<Token>)
    requires AllOk(all)
    ensures Part(all, [], all, {}, 0)
  {
  }

  lemma PartNext(all: seq<Token>, c: seq<seq<int>>, l: seq<Token>, keys: set<string>, count: nat)
    requires AllOk(all) && AllOk(l) && l != [] && Part(all, c, l, keys, count)
    ensures AllOk(l[1..])
    ensures Text(l[0]) in keys ==> Part(all, c, l[1..], keys, count)
    ensures Text(l[0]) !in keys && count <= MAXSTRINGS ==> Part(all, c + [Content(l[0])], l[1..], keys + {Text(l[0])}, count + 1)
    ensures Text(l[0]) !in keys && count > MAXSTRINGS ==> Part(all, c + [Content(l[0])], l[1..], keys, count)
  {
    hide Content, Text;
    if Text(l[0]) !in keys {
      var r := if count <= MAXSTRINGS then Chunks(l[1..], keys + {Text(l[0])}, count + 1) else Chunks(l[1..], keys, count);
      assert c + ([Content(l[0])] + r) == c + [Content(l[0])] + r;
    }
  }

  lemma PartEnds(all: seq<Token>, c: seq<seq<int>>, keys: set<string>, count: nat)
    requires AllOk(all) && Part(all, c, [], keys, count)
    ensures c == Chunks(all, {}, 0)
  {
    assert Chunks([], keys, count) == [];
    assert c + [] == c;
  }

  lemma {:induction false} ConcatMore(c: seq<seq<int>>, x: seq<int>)
    ensures Concat(c + [x]) == Concat(c) + x
    decreases |c|
  {
    if c == [] {
      assert [] + [x] == [x] && [x][1..] == [];
      assert Concat([x]) == x + Concat([]);
    } else {
      assert (c + [x])[1..] == c[1..] + [x];
      ConcatMore(c[1..], x);
    }
  }

  /** The lengths of the strings, as they are declared. */
  function Lengths(c: seq<seq<int>>): seq<nat> {
    seq(|c|, i requires 0 <= i < |c| => |c[i]|)
  }

  class Wrap {
    const o: Options
    var places: Places

    constructor (o: Options)
      ensures this.o == o && places == map[]
    {
      this.o, places := o, map[];
    }

    /** The tokens of one body: their fields, tags and literals, and the composite ones onto the worklist. */
    method VisitBody(b0: Body, w0: seq<Token>, l0: seq<Token>, f0: seq<Field>, ghost all: seq<Token>)
        returns (w: seq<Token>, l: seq<Token>, f: seq<Field>)
      requires AllOk(all) && Distinct(all) && Visited(o, places, all, |f0|, w0)
      requires |f0| <= |all| && Ahead(all, |f0|, b0, w0)
      requires f0 == FieldsTo(all, |f0|) && l0 == LiteralsTo(o, all, |f0|)
      modifies this
      ensures |f| == |f0| + NumTokens(b0) <= |all| && Visited(o, places, all, |f|, w) && w == Push(b0, w0)
      ensures AheadWork(all, |f|, w) && f == FieldsTo(all, |f|) && l == LiteralsTo(o, all, |f|)
    {
      hide Flat, Visited, AllOk, Content, IsLiteral, FieldsTo, LiteralsTo, Toks, Push, Distinct, FieldOf, Ahead, AheadWork, NumTokens;
      var b := b0;
      w, l, f := w0, l0, f0;
      while b.Link?
        invariant |f| + NumTokens(b) == |f0| + NumTokens(b0) && Push(b, w) == Push(b0, w0)
        invariant |f| <= |all| && Ahead(all, |f|, b, w)
        invariant Visited(o, places, all, |f|, w)
        invariant f == FieldsTo(all, |f|) && l == LiteralsTo(o, all, |f|)
        decreases b
      {
        NextToken(all, |f|, b, w);
        w, l, f := VisitToken(b.token, w, l, f, all);
        b := b.next;
      }
      PushEnd(all, |f|, b, w);
    }

    method VisitToken(t: Token, w0: seq<Token>, l0: seq<Token>, f0: seq<Field>, ghost all: seq<Token>)
        returns (w: seq<Token>, l: seq<Token>, f: seq<Field>)
      requires AllOk(all) && Distinct(all) && |f0| < |all| && all[|f0|] == t && Visited(o, places, all, |f0|, w0)
      requires l0 == LiteralsTo(o, all, |f0|)
      modifies this
      ensures w == (if Composite(t) then [t] + w0 else w0) && Visited(o, places, all, |f0| + 1, w)
      ensures f == f0 + [FieldOf(t)] && l == LiteralsTo(o, all, |f0| + 1)
    {
      hide Visited, Content, IsLiteral, LiteralsTo, Distinct;
      ghost var k, m := |f0|, places;
      w, l, f := w0, l0, f0 + [FieldOf(t)];
      OneMoreLiteral(o, all, k);
      if (t.item.Name? || t.item.LitName?) && Text(t) in o.wellKnown {
        places := places[t.id := o.wellKnown[Text(t)]];
      }
      VisitOne(o, m, places, all, k, w);
      var literal := NeedsString(t);
      if literal { l := [t] + l; }
      if Composite(t) { w := [t] + w; }
    }

    /** Whether a token's text has to be laid out. */
    method NeedsString(t: Token) returns (literal: bool)
      requires TextOk(t)
      ensures literal == IsLiteral(o, t)
    {
      match t.item
      case Str(s) =>
        PswString.WellFormedWithin(s);
        var n := PswString.StringLength(s);
        literal := n != 0;
      case Hex(s) => literal := PswString.HexStringLength(s) != 0;
      case Name(s) => literal := o.noUserNames && s !in o.wellKnown;
      case LitName(s) => literal := o.noUserNames && s !in o.wellKnown;
      case _ => literal := false;
    }

    /** All bodies, the last found first. */
    method VisitAll(body: Body, ghost all: seq<Token>) returns (l: seq<Token>, f: seq<Field>)
      requires all == All(body) && AllOk(all) && Distinct(all)
      modifies this
      ensures f == Fields(all) && l == Literals(o, all) && Visited(o, places, all, |all|, [])
    {
      hide Flat, Visited, Push, Ahead, AheadWork;
      var w: seq<Token> := [];
      NothingVisited(o, places, all);
      AheadAll(body);
      NothingTo(o, all);
      w, l, f := VisitBody(body, [], [], [], all);
      while w != []
        invariant |f| <= |all| && Visited(o, places, all, |f|, w)
        invariant AheadWork(all, |f|, w) && f == FieldsTo(all, |f|) && l == LiteralsTo(o, all, |f|)
        decreases WorkCount(w), |w|
      {
        var t := w[0];
        PlaceBody(o, places, all, |f|, w);
        BodyNext(all, |f|, w);
        PushCount(BodyOf(t), w[1..]);
        NoTokens(BodyOf(t), w[1..]);
        places := places[t.id := DPS_BINOBJ_SIZE * |f|];
        w, l, f := VisitBody(BodyOf(t), w[1..], l, f, all);
      }
      AllBehind(o, all, |f|);
    }

    /** The length of a token's text. */
    method TextLength(t: Token) returns (n: nat)
      requires TextOk(t)
      ensures n == |Content(t)|
    {
      if t.item.Hex? {
        n := PswString.HexStringLength(t.item.s);
      } else if t.item.Str? || t.item.Name? || t.item.LitName? {
        PswString.WellFormedWithin(t.item.s);
        n := PswString.StringLength(t.item.s);
      } else {
        n := 0;
      }
    }

    /** Addresses for the strings, behind the records, and the declarations of their fields. */
    method PlaceStrings(l: seq<Token>, base: nat) returns (lens: seq<nat>, size: nat)
      requires AllOk(l) && Distinct(l)
      modifies this
      ensures lens == Lengths(Chunks(l, {}, 0)) && size == base + |Bytes(l)|
      ensures forall j :: 0 <= j < |l| ==> l[j].id in places && places[l[j].id] == base + Entries(l, map[], 0, 0)[j]
      ensures SameOutside(old(places), places, l, |l|)
    {
      hide Content, Text, Part, Laid, Concat, Chunks, TextOk, SameOutside, Entries;
      NothingPlaced(places, l);
      var dict := new PswDict.Dict(MAXSTRINGS);
      var strCount := 0;
      ghost var c: seq<seq<int>> := [];
      PartStarts(l);
      NothingLaid(places, base, l);
      lens, size := [], base;
      assert dict.Map == map[] && dict.Map.Keys == {} && l[0..] == l;
      for i := 0 to |l|
        invariant fresh(dict) && fresh(dict.entries) && fresh(dict.Repr) && dict.Valid()
        invariant forall x :: x in dict.Map ==> dict.Map[x] >= 0
        invariant AllOk(l[i..]) && Part(l, c, l[i..], dict.Map.Keys, strCount)
        invariant lens == Lengths(c) && size == base + |Concat(c)|
        invariant Laid(places, dict.Map, strCount, size, base, l, i)
        invariant SameOutside(old(places), places, l, i)
      {
        var more;
        ghost var was := places;
        strCount, more, c := PlaceString(l, i, base, size, dict, strCount, c, lens);
        PlacesMore(old(places), was, places, l, i);
        lens := lens + more;
        size := if more == [] then size else size + more[0];
      }
      assert l[|l|..] == [];
      PartEnds(l, c, dict.Map.Keys, strCount);
      AllLaid(places, dict.Map, strCount, size, base, l);
    }

    /** A text enters the dictionary while there is room. */
    method Remember(dict: PswDict.Dict, text: string, at: nat, strCount: nat) returns (count: nat)
      requires dict.Valid() && forall x :: x in dict.Map ==> dict.Map[x] >= 0
      modifies dict, dict.entries, dict.Repr
      ensures dict.Valid() && fresh(dict.Repr - old(dict.Repr)) && forall x :: x in dict.Map ==> dict.Map[x] >= 0
      ensures dict.Map == if strCount <= MAXSTRINGS then old(dict.Map)[text := at] else old(dict.Map)
      ensures dict.Map.Keys == if strCount <= MAXSTRINGS then old(dict.Map.Keys) + {text} else old(dict.Map.Keys)
      ensures count == if strCount <= MAXSTRINGS then strCount + 1 else strCount
    {
      count := strCount;
      if strCount <= MAXSTRINGS {
        var r := dict.Enter(text, at);
        count := strCount + 1;
      }
    }

    /** The string of the i-th token: its address, and its length if it is not one that is there already. */
    method PlaceString(l: seq<Token>, i: nat, base: nat, size: nat, dict: PswDict.Dict, strCount: nat, ghost c: seq<seq<int>>, ghost lens: seq<nat>)
        returns (count: nat, more: seq<nat>, ghost c': seq<seq<int>>)
      requires AllOk(l) && Distinct(l) && i < |l| && dict.Valid() && forall x :: x in dict.Map ==> dict.Map[x] >= 0
      requires AllOk(l[i..]) && Part(l, c, l[i..], dict.Map.Keys, strCount) && size == base + |Concat(c)| && lens == Lengths(c)
      requires Laid(places, dict.Map, strCount, size, base, l, i)
      modifies this, dict, dict.entries, dict.Repr
      ensures dict.Valid() && fresh(dict.Repr - old(dict.Repr)) && forall x :: x in dict.Map ==> dict.Map[x] >= 0
      ensures AllOk(l[i + 1..]) && Part(l, c', l[i + 1..], dict.Map.Keys, count)
      ensures |more| <= 1 && base + |Concat(c')| == size + (if more == [] then 0 else more[0]) && lens + more == Lengths(c')
      ensures Laid(places, dict.Map, count, size + (if more == [] then 0 else more[0]), base, l, i + 1)
      ensures OnlyAt(old(places), places, l[i].id)
    {
      hide Content, Text, Part, Laid, Concat, Chunks, TextOk, PswDict.Dict.Valid, Distinct, Lengths;
      var t := l[i];
      count, more, c' := strCount, [], c;
      PartNext(l, c, l[i..], dict.Map.Keys, strCount);
      assert l[i..][1..] == l[i + 1..];
      LayOne(places, dict.Map, strCount, size, base, l, i);
      var loc := dict.Lookup(Text(t));
      if loc != -1 {
        places := places[t.id := loc];
        return;
      }
      var ln;
      count, ln := PlaceNew(l, i, base, size, dict, strCount);
      ConcatMore(c, Content(t));
      LengthsMore(c, Content(t));
      c', more := c + [Content(t)], [ln];
    }

    method PlaceNew(l: seq<Token>, i: nat, ghost base: nat, size: nat, dict: PswDict.Dict, strCount: nat)
        returns (count: nat, ln: nat)
      requires AllOk(l) && Distinct(l) && i < |l| && dict.Valid() && forall x :: x in dict.Map ==> dict.Map[x] >= 0
      requires Laid(places, dict.Map, strCount, size, base, l, i) && Text(l[i]) !in dict.Map
      modifies this, dict, dict.entries, dict.Repr
      ensures dict.Valid() && fresh(dict.Repr - old(dict.Repr)) && forall x :: x in dict.Map ==> dict.Map[x] >= 0
      ensures dict.Map.Keys == if strCount <= MAXSTRINGS then old(dict.Map.Keys) + {Text(l[i])} else old(dict.Map.Keys)
      ensures count == if strCount <= MAXSTRINGS then strCount + 1 else strCount
      ensures Laid(places, dict.Map, count, size + ln, base, l, i + 1)
      ensures OnlyAt(old(places), places, l[i].id) && ln == |Content(l[i])|
    {
      hide Content, Text, Laid, TextOk, PswDict.Dict.Valid, Distinct;
      LayOne(places, dict.Map, strCount, size, base, l, i);
      places := places[l[i].id := size];
      count := Remember(dict, Text(l[i]), size, strCount);
      ln := TextLength(l[i]);
    }

    /** CheckSize: a dry run, to see whether the wrap is too large for the short form. */
    method CheckSize(body: Body, ghost all: seq<Token>) returns (large: bool)
      requires all == All(body) && AllOk(all) && Distinct(all)
      modifies this
      ensures large <==> DPS_BINOBJ_SIZE * |all| + |Concat(Chunks(Literals(o, all), {}, 0))| > 0xffff
    {
      hide All, Literals, Chunks, Concat;
      var l, f := VisitAll(body, all);
      var size := SumStrings(l);
      large := DPS_BINOBJ_SIZE * |f| + size > 0xffff;
    }

    method SumStrings(l: seq<Token>) returns (size: nat)
      requires AllOk(l)
      ensures size == |Concat(Chunks(l, {}, 0))|
    {
      hide Content, Text, Part, Concat, Chunks, TextOk, PswDict.Dict.Valid;
      var dict := new PswDict.Dict(MAXSTRINGS);
      var strCount := 0;
      ghost var c: seq<seq<int>> := [];
      PartStarts(l);
      NothingConcat();
      size := 0;
      assert dict.Map.Keys == {} && l[0..] == l;
      for i := 0 to |l|
        invariant fresh(dict) && fresh(dict.entries) && fresh(dict.Repr) && dict.Valid()
        invariant forall x :: x in dict.Map ==> dict.Map[x] >= 0
        invariant AllOk(l[i..]) && Part(l, c, l[i..], dict.Map.Keys, strCount) && size == |Concat(c)|
      {
        PartNext(l, c, l[i..], dict.Map.Keys, strCount);
        assert l[i..][1..] == l[i + 1..];
        var loc := dict.Lookup(Text(l[i]));
        if loc == -1 {
          strCount := Remember(dict, Text(l[i]), 0, strCount);
          var ln := TextLength(l[i]);
          ConcatMore(c, Content(l[i]));
          c := c + [Content(l[i])];
          size := size + ln;
        }
      }
      assert l[|l|..] == [];
      PartEnds(l, c, dict.Map.Keys, strCount);
    }

    /** BuildTypesAndAssignAddresses: the fields, the lengths of the strings behind them, and the size of it all. */
    method Build(body: Body, ghost all: seq<Token>) returns (fields: seq<Field>, lens: seq<nat>, size: nat)
      requires all == All(body) && AllOk(all) && Distinct(all)
      modifies this
      ensures fields == Fields(all) && lens == Lengths(Chunks(Literals(o, all), {}, 0))
      ensures size == DPS_BINOBJ_SIZE * |all| + |Concat(Chunks(Literals(o, all), {}, 0))|
      ensures Built(o, places, all)
    {
      hide All, Literals, Chunks, Concat, Visited, SameOutside, Settled, Distinct, Entries;
      var l;
      l, fields := VisitAll(body, all);
      ghost var m := places;
      LiteralsAre(o, all);
      lens, size := PlaceStrings(l, DPS_BINOBJ_SIZE * |fields|);
      AllSettled(o, m, places, all);
    }

    /** The records of one body, its literals, and the bodies below it onto the worklist. */
    method ConstructBody(b0: Body, w0: seq<Body>, l0: seq<Token>, r0: seq<Rec>, ghost v0: seq<Token>, ghost all: seq<Token>)
        returns (w: seq<Body>, l: seq<Token>, r: seq<Rec>, ghost v: seq<Token>)
      requires AllOk(all) && |r0| <= |all| && Ahead(all, |r0|, b0, v0)
      requires w0 == Bodies(v0) && r0 == RecordsTo(o, places, all, |r0|) && l0 == LiteralsTo(o, all, |r0|)
      ensures |r| == |r0| + NumTokens(b0) <= |all| && v == Push(b0, v0) && w == Bodies(v)
      ensures AheadWork(all, |r|, v) && r == RecordsTo(o, places, all, |r|) && l == LiteralsTo(o, all, |r|)
    {
      hide Flat, AllOk, Content, IsLiteral, RecordsTo, LiteralsTo, Toks, RecOf, Bodies, Push, Ahead, AheadWork, NumTokens;
      var b := b0;
      w, l, r, v := w0, l0, r0, v0;
      while b.Link?
        invariant |r| + NumTokens(b) == |r0| + NumTokens(b0) && Push(b, v) == Push(b0, v0) && w == Bodies(v)
        invariant |r| <= |all| && Ahead(all, |r|, b, v)
        invariant r == RecordsTo(o, places, all, |r|) && l == LiteralsTo(o, all, |r|)
        decreases b
      {
        var t := b.token;
        ghost var k := |r|;
        NextToken(all, k, b, v);
        OneMoreLiteral(o, all, k);
        OneMoreRecord(o, places, all, k);
        r := r + [RecOf(o, places, t)];
        var literal := NeedsString(t);
        if literal { l := [t] + l; }
        if Composite(t) {
          OneMoreBody(t, v);
          w := [BodyOf(t)] + w;
          v := [t] + v;
        }
        b := b.next;
      }
      PushEnd(all, |r|, b, v);
    }

    /** ConstructStatics: the records, and the strings behind them. */
    method ConstructStatics(body: Body, ghost all: seq<Token>) returns (records: seq<Rec>, strings: seq<seq<int>>)
      requires all == All(body) && AllOk(all)
      ensures records == Records(o, places, all) && strings == Chunks(Literals(o, all), {}, 0)
    {
      hide Flat, Push, Chunks, Bodies, Literals, Ahead, AheadWork;
      var w: seq<Body>, l := [], [];
      ghost var v;
      records := [];
      NothingTo(o, all);
      NoRecords(o, places, all);
      AheadAll(body);
      w, l, records, v := ConstructBody(body, [], [], [], [], all);
      while w != []
        invariant |records| <= |all| && w == Bodies(v) && AheadWork(all, |records|, v)
        invariant records == RecordsTo(o, places, all, |records|) && l == LiteralsTo(o, all, |records|)
        decreases WorkCount(v), |v|
      {
        FirstBody(v);
        BodyNext(all, |records|, v);
        PushCount(BodyOf(v[0]), v[1..]);
        NoTokens(BodyOf(v[0]), v[1..]);
        w, l, records, v := ConstructBody(w[0], w[1..], l, records, v[1..], all);
      }
      FirstBody(v);
      AllBehind(o, all, |records|);
      strings := WriteStrings(l);
    }

    /** The strings, each text once while the dictionary has room. */
    method WriteStrings(l: seq<Token>) returns (strings: seq<seq<int>>)
      requires AllOk(l)
      ensures strings == Chunks(l, {}, 0)
    {
      hide Content, Text, Part, Chunks, TextOk, PswDict.Dict.Valid;
      var dict := new PswDict.Dict(MAXSTRINGS);
      var strCount := 0;
      strings := [];
      PartStarts(l);
      assert dict.Map.Keys == {} && l[0..] == l;
      for i := 0 to |l|
        invariant fresh(dict) && fresh(dict.entries) && fresh(dict.Repr) && dict.Valid()
        invariant forall x :: x in dict.Map ==> dict.Map[x] >= 0
        invariant AllOk(l[i..]) && Part(l, strings, l[i..], dict.Map.Keys, strCount)
      {
        PartNext(l, strings, l[i..], dict.Map.Keys, strCount);
        assert l[i..][1..] == l[i + 1..];
        var loc := dict.Lookup(Text(l[i]));
        if loc == -1 {
          strCount := Remember(dict, Text(l[i]), 0, strCount);
          var bytes := WriteString(l[i]);
          strings := strings + [bytes];
        }
      }
      assert l[|l|..] == [];
      PartEnds(l, strings, dict.Map.Keys, strCount);
    }

    method WriteString(t: Token) returns (bytes: seq<int>)
      requires TextOk(t)
      ensures bytes == Content(t)
    {
      bytes := [];
      if t.item.Hex? {
        var out := PswString.OutputHexStringChars(t.item.s);
        bytes := PswString.HexValues(out);
      } else if t.item.Str? || t.item.Name? || t.item.LitName? {
        PswString.WellFormedWithin(t.item.s);
        var out := PswString.OutputStringChars(t.item.s);
        bytes := PswString.Constants(out);
      }
    }
  }

  /** Both passes over a wrap: the second writes what the first declared, and what is written reads back. */
  method Generate(o: Options, body: Body) returns (fields: seq<Field>, lens: seq<nat>, size: nat, records: seq<Rec>, strings: seq<seq<int>>)
    requires BodyOk(body) && Distinct(All(body))
    ensures AllOk(All(body)) && |fields| == |records| && forall i :: 0 <= i < |records| ==> (fields[i] == RealField <==> records[i].RReal?)
    ensures |records| == |All(body)| && strings == Chunks(Literals(o, All(body)), {}, 0)
    ensures lens == Lengths(strings)
    ensures size == DPS_BINOBJ_SIZE * |records| + |Concat(strings)|
    ensures Decode(records, Concat(strings), 0, NumTokens(body), Depth(body)) == Some(Meaning(o, body)) <==>
      Shares(Literals(o, All(body)))
  {
    hide All, Literals, Chunks, Concat, Shares, Built, BodyOk, Decode, Depth, RecOf;
    ghost var all := All(body);
    AllTexts(body);
    var wrap := new Wrap(o);
    fields, lens, size := wrap.Build(body, all);
    records, strings := wrap.ConstructStatics(body, all);
    FieldsMatch(o, wrap.places, all);
    DecodesIff(o, wrap.places, body);
  }

  lemma FieldsMatch(o: Options, m: Places, all: seq<Token>)
    requires AllOk(all)
    ensures forall i :: 0 <= i < |all| ==> (Fields(all)[i] == RealField <==> Records(o, m, all)[i].RReal?)
  {
    hide Content;
  }

  function RecordsTo(o: Options, m: Places, all: seq<Token>, k: nat): seq<Rec>
    requires k <= |all| && AllOk(all)
  {
    Records(o, m, all[..k])
  }

  lemma NoRecords(o: Options, m: Places, all: seq<Token>)
    requires AllOk(all)
    ensures RecordsTo(o, m, all, 0) == [] && Bodies([]) == []
  {
  }

  lemma OneMoreRecord(o: Options, m: Places, all: seq<Token>, k: nat)
    requires k < |all| && AllOk(all)
    ensures RecordsTo(o, m, all, k + 1) == RecordsTo(o, m, all, k) + [RecOf(o, m, all[k])]
  {
    hide RecOf;
  }

  function Bodies(v: seq<Token>): seq<Body> {
    seq(|v|, i requires 0 <= i < |v| => BodyOf(v[i]))
  }

  lemma OneMoreBody(t: Token, v: seq<Token>)
    ensures Bodies([t] + v) == [BodyOf(t)] + Bodies(v)
  {
    hide BodyOf;
  }

  lemma FirstBody(v: seq<Token>)
    ensures |Bodies(v)| == |v| && (v != [] ==> Bodies(v)[0] == BodyOf(v[0]) && Bodies(v)[1..] == Bodies(v[1..]))
  {
    hide BodyOf;
  }

  lemma NothingConcat()
    ensures Concat([]) == []
  {
  }

  /** The list of literals, each in its own place. */
  lemma {:induction false} LiteralsAre(o: Options, all: seq<Token>)
    requires AllOk(all) && Distinct(all)
    ensures Distinct(Literals(o, all))
    decreases |all|
  {
    hide IsLiteral;
    if all != [] {
      var n := |all| - 1;
      LiteralsAre(o, all[..n]);
      LiteralsIn(o, all[..n]);
      var l := Literals(o, all[..n]);
      forall j | 0 <= j < |l|
        ensures l[j].id != all[n].id
      {
        var i :| 0 <= i < n && all[..n][i] == l[j];
      }
    }
  }

  /** What the first phase placed stays where it is while the second places the strings. */
  lemma AllSettled(o: Options, m: Places, m': Places, all: seq<Token>)
    requires AllOk(all) && Distinct(all) && Visited(o, m, all, |all|, [])
    requires SameOutside(m, m', Literals(o, all), |Literals(o, all)|)
    ensures Settled(o, m', all)
  {
    hide Literals, Content, BodyPlaced, NamePlaced, IsLiteral;
    LiteralsIn(o, all);
    var l := Literals(o, all);
    forall i | 0 <= i < |all|
      ensures Composite(all[i]) ==> BodyPlaced(m', all, all[i])
      ensures NamePlaced(o, m', all[i])
    {
      if IsLiteral(o, all[i]) {
        LiteralUntagged(o, m', all[i]);
      } else {
        assert forall j :: 0 <= j < |l| ==> l[j].id != all[i].id by { OtherPlace(o, all, i); }
        SamePlaced(o, m, m', all, all[i]);
      }
    }
  }

  lemma LiteralUntagged(o: Options, m: Places, t: Token)
    requires TextOk(t) && IsLiteral(o, t)
    ensures !Composite(t) && NamePlaced(o, m, t)
  {
    hide Content;
  }

  lemma OtherPlace(o: Options, all: seq<Token>, i: nat)
    requires AllOk(all) && Distinct(all) && i < |all| && !IsLiteral(o, all[i])
    ensures forall j :: 0 <= j < |Literals(o, all)| ==> Literals(o, all)[j].id != all[i].id
  {
    hide Literals, IsLiteral;
    LiteralsIn(o, all);
    var l := Literals(o, all);
    forall j | 0 <= j < |l|
      ensures l[j].id != all[i].id
    {
      var k :| 0 <= k < |all| && all[k] == l[j];
      if k < i { DistinctToken(all, i, k); } else if i < k { DistinctToken(all, k, i); }
    }
  }

  lemma SamePlaced(o: Options, m: Places, m': Places, all: seq<Token>, t: Token)
    requires t.id in m ==> t.id in m' && m'[t.id] == m[t.id]
    ensures BodyPlaced(m, all, t) ==> BodyPlaced(m', all, t)
    ensures NamePlaced(o, m, t) ==> NamePlaced(o, m', t)
  {
  }

  lemma LengthsMore(c: seq<seq<int>>, x: seq<int>)
    ensures Lengths(c + [x]) == Lengths(c) + [|x|]
  {
  }

  /** Nothing is placed anew but the first i of the list. */
  predicate SameOutside(m: Places, m': Places, l: seq<Token>, i: nat)
    requires i <= |l|
  {
    && (forall id :: id in m ==> id in m')
    && (forall id :: id in m' ==> (id in m && m[id] == m'[id]) || exists j :: 0 <= j < i && l[j].id == id)
  }

  predicate OnlyAt(m: Places, m': Places, id: nat) {
    id in m' && m' == m[id := m'[id]]
  }

  lemma NothingPlaced(m: Places, l: seq<Token>)
    ensures SameOutside(m, m, l, 0)
  {
  }

  lemma PlacesMore(m: Places, m1: Places, m2: Places, l: seq<Token>, i: nat)
    requires i < |l| && SameOutside(m, m1, l, i) && OnlyAt(m1, m2, l[i].id)
    ensures SameOutside(m, m2, l, i + 1)
  {
  }

  lemma NothingLaid(m: Places, base: nat, l: seq<Token>)
    requires AllOk(l)
    ensures Laid(m, map[], 0, base, base, l, 0) && Concat([]) == []
  {
    var e := Entries(l, map[], 0, base);
    assert l[0..] == l && e[0..] == e;
  }

  lemma AllLaid(m: Places, dict: map<string, int>, count: nat, at: int, base: int, l: seq<Token>)
    requires AllOk(l) && Laid(m, dict, count, at, base, l, |l|)
    ensures forall j :: 0 <= j < |l| ==> l[j].id in m && m[l[j].id] == base + Entries(l, map[], 0, 0)[j]
  {
    hide Entries;
    EntriesShift(l, map[], map[], 0, 0, base);
  }

  lemma NothingTo(o: Options, all: seq<Token>)
    requires AllOk(all)
    ensures FieldsTo(all, 0) == [] && LiteralsTo(o, all, 0) == []
  {
  }

  lemma AheadAll(body: Body)
    ensures Ahead(All(body), 0, body, [])
  {
    hide Flat;
    assert All(body)[..0] == [] && [] + All(body) == All(body);
  }

  /** When the worklist is empty all tokens have been visited. */
  lemma AllBehind(o: Options, all: seq<Token>, k: nat)
    requires AllOk(all) && AheadWork(all, k, [])
    ensures k == |all| && FieldsTo(all, k) == Fields(all) && LiteralsTo(o, all, k) == Literals(o, all)
    ensures forall m :: RecordsTo(o, m, all, k) == Records(o, m, all)
  {
    hide Literals, RecOf;
    assert Flat([]) == [];
    assert all[..|all|] == all;
  }

  lemma NothingVisited(o: Options, m: Places, all: seq<Token>)
    ensures Visited(o, m, all, 0, [])
  {
  }

  lemma PushEnd(all: seq<Token>, k: nat, b: Body, w: seq<Token>)
    requires b.End?
    ensures Push(b, w) == w && NumTokens(b) == 0
    ensures Ahead(all, k, b, w) ==> AheadWork(all, k, w)
  {
    hide Flat;
    assert [] + Flat(w) == Flat(w);
  }

  lemma NextToken(all: seq<Token>, k: nat, b: Body, w: seq<Token>)
    requires b.Link? && Ahead(all, k, b, w)
    ensures k < |all| && all[k] == b.token
    ensures Push(b, w) == Push(b.next, if Composite(b.token) then [b.token] + w else w)
    ensures NumTokens(b) == 1 + NumTokens(b.next)
    ensures Ahead(all, k + 1, b.next, if Composite(b.token) then [b.token] + w else w)
    ensures FieldsTo(all, k + 1) == FieldsTo(all, k) + [FieldOf(b.token)]
  {
    hide Flat, FieldOf;
    var r := Flat(Push(b, w));
    assert Toks(b) == [b.token] + Toks(b.next);
    assert all[k] == b.token;
    assert [b.token] + Toks(b.next) + r == [b.token] + (Toks(b.next) + r);
  }

  lemma OneMoreLiteral(o: Options, all: seq<Token>, k: nat)
    requires k < |all| && AllOk(all)
    ensures TextOk(all[k])
    ensures LiteralsTo(o, all, k + 1) == (if IsLiteral(o, all[k]) then [all[k]] else []) + LiteralsTo(o, all, k)
  {
    hide IsLiteral;
    assert all[..k + 1][..k] == all[..k];
  }
}
