/**
  Strings of the same text share one entry, whatever bytes the text stands for.  Where that leaves each
  token's address, and exactly when what is laid out can be read back.
 */
module PswShare {
  import opened PswLayout
  import PswString

  /**
    Where the strings of a list are taken to stand: at the next free place, or at that of the same text given
    before, as long as the dictionary took it.
   */
  function Entries(l: seq<Token>, dict: map<string, int>, count: nat, at: int): (e: seq<int>)
    requires AllOk(l)
    ensures |e| == |l|
    decreases |l|
  {
    if l == [] then []
    else
      var x, next := Text(l[0]), at + |Content(l[0])|;
      if x in dict then [dict[x]] + Entries(l[1..], dict, count, at)
      else if count <= MAXSTRINGS then [at] + Entries(l[1..], dict[x := at], count + 1, next)
      else [at] + Entries(l[1..], dict, count, next)
  }

  function Bytes(l: seq<Token>): seq<int>
    requires AllOk(l)
  {
    Concat(Chunks(l, {}, 0))
  }

  /** What each token stands for are the bytes laid out from its entry on. */
  predicate Shares(l: seq<Token>)
    requires AllOk(l)
  {
    forall j :: 0 <= j < |l| ==> StandsAt(Bytes(l), Entries(l, map[], 0, 0)[j], Content(l[j]))
  }

  /** Tokens with the same text stand for the same bytes. */
  predicate Consistent(l: seq<Token>)
    requires AllOk(l)
  {
    forall i, j :: 0 <= i < |l| && 0 <= j < |l| && Text(l[i]) == Text(l[j]) ==> Content(l[i]) == Content(l[j])
  }

  lemma {:induction false} EntriesShift(l: seq<Token>, dict: map<string, int>, dict': map<string, int>, count: nat, at: int, base: int)
    requires AllOk(l) && dict.Keys == dict'.Keys && forall x :: x in dict ==> dict'[x] == dict[x] + base
    ensures forall j :: 0 <= j < |l| ==> Entries(l, dict', count, at + base)[j] == Entries(l, dict, count, at)[j] + base
    decreases |l|
  {
    hide Content, Text, TextOk;
    if l != [] {
      var x, next := Text(l[0]), at + |Content(l[0])|;
      if x in dict {
        EntriesShift(l[1..], dict, dict', count, at, base);
      } else if count <= MAXSTRINGS {
        EntriesShift(l[1..], dict[x := at], dict'[x := at + base], count + 1, next, base);
      } else {
        EntriesShift(l[1..], dict, dict', count, next, base);
      }
    }
  }

  lemma {:induction false} EntriesWithin(l: seq<Token>, dict: map<string, int>, count: nat, at: int)
    requires AllOk(l) && at >= 0 && forall x :: x in dict ==> 0 <= dict[x] <= at
    ensures forall j :: 0 <= j < |l| ==> 0 <= Entries(l, dict, count, at)[j] <= at + |Concat(Chunks(l, dict.Keys, count))|
    decreases |l|
  {
    hide Content, Text, TextOk;
    if l != [] {
      var x, next := Text(l[0]), at + |Content(l[0])|;
      if x in dict {
        EntriesWithin(l[1..], dict, count, at);
      } else if count <= MAXSTRINGS {
        assert dict[x := at].Keys == dict.Keys + {x};
        EntriesWithin(l[1..], dict[x := at], count + 1, next);
        ConcatFirst(Content(l[0]), Chunks(l[1..], dict.Keys + {x}, count + 1));
      } else {
        EntriesWithin(l[1..], dict, count, next);
        ConcatFirst(Content(l[0]), Chunks(l[1..], dict.Keys, count));
      }
    }
  }

  lemma ConcatFirst(x: seq<int>, c: seq<seq<int>>)
    ensures Concat([x] + c) == x + Concat(c)
  {
    assert ([x] + c)[1..] == c;
  }

  // Sharing among tokens that stand for the same

  ghost predicate Known(all: seq<Token>, dict: map<string, int>, bytes: seq<int>)
    requires AllOk(all)
  {
    forall x, i :: x in dict && 0 <= i < |all| && Text(all[i]) == x ==> StandsAt(bytes, dict[x], Content(all[i]))
  }

  lemma StillStands(bytes: seq<int>, j: int, c: seq<int>, more: seq<int>)
    requires StandsAt(bytes, j, c)
    ensures StandsAt(bytes + more, j, c)
  {
    assert (bytes + more)[j..j + |c|] == bytes[j..j + |c|];
  }

  lemma StandsLast(bytes: seq<int>, c: seq<int>)
    ensures StandsAt(bytes + c, |bytes|, c)
  {
  }

  /** One more text laid out, and known or not. */
  lemma KnownMore(all: seq<Token>, dict: map<string, int>, bytes: seq<int>, t: Token)
    requires AllOk(all) && Consistent(all) && Known(all, dict, bytes) && t in all
    ensures Known(all, dict, bytes + Content(t)) && Known(all, dict[Text(t) := |bytes|], bytes + Content(t))
  {
    hide Content, Text, StandsAt, TextOk;
    StandsLast(bytes, Content(t));
    forall x, i | x in dict && 0 <= i < |all| && Text(all[i]) == x
      ensures StandsAt(bytes + Content(t), dict[x], Content(all[i]))
    {
      StillStands(bytes, dict[x], Content(all[i]), Content(t));
    }
  }

  /** The tokens l are the last of all; bytes have been laid out before them. */
  lemma {:induction false} EntriesStand(all: seq<Token>, l: seq<Token>, dict: map<string, int>, count: nat, bytes: seq<int>)
    requires AllOk(all) && Consistent(all) && Known(all, dict, bytes) && forall t :: t in l ==> t in all
    ensures AllOk(l)
    ensures forall j :: 0 <= j < |l| ==>
      StandsAt(bytes + Concat(Chunks(l, dict.Keys, count)), Entries(l, dict, count, |bytes|)[j], Content(l[j]))
    decreases |l|
  {
    hide Content, Text, StandsAt, TextOk, Known, Consistent, Concat;
    assert AllOk(l) by { forall j | 0 <= j < |l| ensures TextOk(l[j]) { assert l[j] in all; } }
    if l != [] {
      var t, rest := l[0], l[1..];
      var x, c := Text(t), Content(t);
      assert t in l && forall u :: u in rest ==> u in l;
      if x in dict {
        EntriesStand(all, rest, dict, count, bytes);
        KnownStands(all, dict, bytes, t);
        StillStands(bytes, dict[x], c, Concat(Chunks(rest, dict.Keys, count)));
      } else {
        var dict', count' := if count <= MAXSTRINGS then dict[x := |bytes|] else dict, if count <= MAXSTRINGS then count + 1 else count;
        var r := Chunks(rest, dict'.Keys, count');
        assert count <= MAXSTRINGS ==> dict'.Keys == dict.Keys + {x};
        KnownMore(all, dict, bytes, t);
        EntriesStand(all, rest, dict', count', bytes + c);
        StandsLast(bytes, c);
        StillStands(bytes + c, |bytes|, c, Concat(r));
        ConcatFirst(c, r);
        assert bytes + c + Concat(r) == bytes + (c + Concat(r));
      }
    }
  }

  lemma KnownStands(all: seq<Token>, dict: map<string, int>, bytes: seq<int>, t: Token)
    requires AllOk(all) && Known(all, dict, bytes) && t in all && Text(t) in dict
    ensures StandsAt(bytes, dict[Text(t)], Content(t))
  {
    hide Content, Text, StandsAt, TextOk;
  }

  lemma ConsistentShares(l: seq<Token>)
    requires AllOk(l) && Consistent(l)
    ensures Shares(l)
  {
    hide Content, Text, StandsAt, TextOk, Consistent, Concat, Chunks;
    var none: map<string, int> := map[];
    EntriesStand(l, l, none, 0, []);
    assert none.Keys == {} && [] + Bytes(l) == Bytes(l);
  }

  // What can be read back

  /** Bodies and well-known names are where they should be. */
  predicate Settled(o: Options, m: Places, all: seq<Token>) {
    forall i :: 0 <= i < |all| ==> (Composite(all[i]) ==> BodyPlaced(m, all, all[i])) && NamePlaced(o, m, all[i])
  }

  /** The tokens of a body, and of all bodies below it. */
  function Deep(b: Body): set<Token>
    decreases b
  {
    if b.End? then {} else {b.token} + (if Composite(b.token) then Deep(b.token.item.body) else {}) + Deep(b.next)
  }

  lemma {:induction false} PushDeep(b: Body, w: seq<Token>)
    ensures forall u :: u in Push(b, w) ==> u in w || (Composite(u) && u in Toks(b))
    decreases b
  {
    if b.Link? { PushDeep(b.next, if Composite(b.token) then [b.token] + w else w); }
  }

  lemma {:induction false} ToksDeep(b: Body)
    ensures forall u :: u in Toks(b) ==> u in Deep(b) && Deep(BodyOf(u)) <= Deep(b)
    decreases b
  {
    if b.Link? { ToksDeep(b.next); }
  }

  lemma {:induction false} FlatDeep(w: seq<Token>, b: Body)
    requires forall u :: u in w ==> Deep(BodyOf(u)) <= Deep(b)
    ensures forall t :: t in Flat(w) ==> t in Deep(b)
    decreases WorkCount(w), |w|
  {
    hide Deep, BodyOf;
    if w != [] {
      var c := BodyOf(w[0]);
      PushCount(c, w[1..]);
      NoTokens(c, w[1..]);
      PushDeep(c, w[1..]);
      ToksDeep(c);
      assert w[0] in w && forall u :: u in w[1..] ==> u in w;
      FlatDeep(Push(c, w[1..]), b);
    }
  }

  lemma AllDeep(b: Body)
    ensures forall t :: t in All(b) ==> t in Deep(b)
  {
    hide Flat, Deep;
    PushDeep(b, []);
    ToksDeep(b);
    FlatDeep(Push(b, []), b);
  }

  /** The bytes of a token's text are what is read at its place. */
  predicate Fetched(o: Options, m: Places, all: seq<Token>, bytes: seq<int>, t: Token)
    requires AllOk(all)
  {
    TextOk(t) && (IsLiteral(o, t) ==> Fetch(Records(o, m, all), bytes, Place(m, t), |Content(t)|) == Some(Content(t)))
  }

  /** Where a body is read as what it means, every text below it has been fetched. */
  lemma {:induction false} DecodedBody(o: Options, m: Places, all: seq<Token>, bytes: seq<int>, b: Body, p: nat, depth: nat)
    requires AllOk(all) && Settled(o, m, all) && BodyOk(b)
    requires p + NumTokens(b) <= |all| && all[p..p + NumTokens(b)] == Toks(b)
    requires Decode(Records(o, m, all), bytes, p, NumTokens(b), depth) == Some(Meaning(o, b))
    ensures forall t :: t in Deep(b) ==> Fetched(o, m, all, bytes, t)
    decreases b, 1
  {
    hide RecOf, Content, DecodeOne, MeaningOf, OkBelow, Settled, Fetched;
    if b.Link? {
      assert all[p] == b.token;
      assert all[p + 1..p + 1 + NumTokens(b.next)] == Toks(b.next) by { Tail(all, p, b); }
      var recs := Records(o, m, all);
      var v := DecodeOne(recs, bytes, recs[p], NumTokens(b) - 1, depth);
      var rest := Decode(recs, bytes, p + 1, NumTokens(b) - 1, depth);
      FirstValue(v, rest, MeaningOf(o, b.token), Meaning(o, b.next));
      DecodedToken(o, m, all, bytes, b.token, p, NumTokens(b) - 1, depth);
      DecodedBody(o, m, all, bytes, b.next, p + 1, depth);
    }
  }

  lemma FirstValue(v: Option<Val>, rest: Option<seq<Val>>, x: Val, xs: seq<Val>)
    requires v.Some? && rest.Some? && [v.value] + rest.value == [x] + xs
    ensures v.value == x && rest.value == xs
  {
    assert ([v.value] + rest.value)[0] == ([x] + xs)[0];
    assert ([v.value] + rest.value)[1..] == ([x] + xs)[1..];
  }

  lemma {:induction false} DecodedToken(o: Options, m: Places, all: seq<Token>, bytes: seq<int>, t: Token, p: nat, n: nat, depth: nat)
    requires AllOk(all) && Settled(o, m, all) && OkBelow(t) && p < |all| && all[p] == t
    requires DecodeOne(Records(o, m, all), bytes, RecOf(o, m, t), n, depth) == Some(MeaningOf(o, t))
    ensures Fetched(o, m, all, bytes, t)
    ensures Composite(t) ==> forall u :: u in Deep(t.item.body) ==> Fetched(o, m, all, bytes, u)
    decreases t, 0
  {
    hide Content, Decode, BodyOk, Records, Deep;
    if Composite(t) {
      var b := t.item.body;
      hide Fetched;
      DecodedBody(o, m, all, bytes, b, m[t.id] / DPS_BINOBJ_SIZE, depth - 1);
      PlainFetched(o, m, all, bytes, t);
    }
  }

  lemma PlainFetched(o: Options, m: Places, all: seq<Token>, bytes: seq<int>, t: Token)
    requires AllOk(all) && TextOk(t) && Composite(t)
    ensures Fetched(o, m, all, bytes, t)
  {
    hide Content;
  }

  /** Reading at an entry: a text that is not empty is found just when it stands there. */
  lemma FetchedIff(o: Options, m: Places, all: seq<Token>, bytes: seq<int>, t: Token, e: int)
    requires AllOk(all) && TextOk(t) && IsLiteral(o, t) && 0 <= e <= |bytes|
    requires t.id in m && m[t.id] == DPS_BINOBJ_SIZE * |all| + e
    ensures Fetched(o, m, all, bytes, t) <==> StandsAt(bytes, e, Content(t))
  {
    hide Content;
  }

  /** What the first pass leaves: bodies and names settled, and every literal at its entry. */
  predicate Built(o: Options, m: Places, all: seq<Token>)
    requires AllOk(all)
  {
    && Settled(o, m, all)
    && var l := Literals(o, all);
       forall j :: 0 <= j < |l| ==> l[j].id in m && m[l[j].id] == DPS_BINOBJ_SIZE * |all| + Entries(l, map[], 0, 0)[j]
  }

  lemma LiteralPlaced(o: Options, m: Places, all: seq<Token>, j: nat)
    requires AllOk(all) && Built(o, m, all) && j < |Literals(o, all)|
    ensures var l := Literals(o, all); var e := Entries(l, map[], 0, 0)[j];
      l[j].id in m && m[l[j].id] == DPS_BINOBJ_SIZE * |all| + e && 0 <= e <= |Bytes(l)|
  {
    hide Content, Text, Literals, Settled;
    var none: map<string, int> := map[];
    EntriesWithin(Literals(o, all), none, 0, 0);
    assert none.Keys == {};
  }

  /** The list of literals: just the tokens of all that are. */
  lemma {:induction false} LiteralsIn(o: Options, all: seq<Token>)
    requires AllOk(all)
    ensures forall j :: 0 <= j < |Literals(o, all)| ==> Literals(o, all)[j] in all && IsLiteral(o, Literals(o, all)[j])
    ensures forall i :: 0 <= i < |all| && IsLiteral(o, all[i]) ==> all[i] in Literals(o, all)
    decreases |all|
  {
    hide IsLiteral;
    if all != [] {
      var n := |all| - 1;
      LiteralsIn(o, all[..n]);
      var l := Literals(o, all[..n]);
      forall j | 0 <= j < |l|
        ensures l[j] in all
      {
        var i :| 0 <= i < n && all[..n][i] == l[j];
      }
    }
  }

  lemma SharesPlaced(o: Options, m: Places, all: seq<Token>)
    requires AllOk(all) && Built(o, m, all) && Shares(Literals(o, all))
    ensures Placed(o, m, all, Bytes(Literals(o, all)))
  {
    hide Content, Literals, Bytes, Entries, BodyPlaced, NamePlaced, StandsAt, Built, IsLiteral;
    LiteralsIn(o, all);
    var l := Literals(o, all);
    SettledIs(o, m, all);
    forall i | 0 <= i < |all|
      ensures IsLiteral(o, all[i]) ==> StringPlaced(m, DPS_BINOBJ_SIZE * |all|, Bytes(l), all[i])
    {
      if IsLiteral(o, all[i]) {
        var j :| 0 <= j < |l| && l[j] == all[i];
        LiteralPlaced(o, m, all, j);
      }
    }
  }

  lemma SettledIs(o: Options, m: Places, all: seq<Token>)
    requires AllOk(all) && Built(o, m, all)
    ensures Settled(o, m, all)
  {
  }

  /** Following counts and offsets gives back the tree just when every token stands for the bytes at its entry. */
  lemma DecodesIff(o: Options, m: Places, body: Body)
    requires BodyOk(body) && AllOk(All(body)) && Built(o, m, All(body))
    ensures var all := All(body);
      Decode(Records(o, m, all), Bytes(Literals(o, all)), 0, NumTokens(body), Depth(body)) == Some(Meaning(o, body)) <==>
      Shares(Literals(o, all))
  {
    hide Flat, Placed, Built, BodyOk, Shares, Literals, Bytes, Depth, Decode, RecOf, Content, Settled;
    var all := All(body);
    var bytes := Bytes(Literals(o, all));
    if Shares(Literals(o, all)) {
      SharesPlaced(o, m, all);
      RoundTrip(o, m, body, bytes);
    }
    if Decode(Records(o, m, all), bytes, 0, NumTokens(body), Depth(body)) == Some(Meaning(o, body)) {
      SettledIs(o, m, all);
      assert all[0..NumTokens(body)] == Toks(body);
      DecodedBody(o, m, all, bytes, body, 0, Depth(body));
      AllDeep(body);
      FetchedShares(o, m, all);
    }
  }

  lemma FetchedShares(o: Options, m: Places, all: seq<Token>)
    requires AllOk(all) && Built(o, m, all)
    requires forall t :: t in all ==> Fetched(o, m, all, Bytes(Literals(o, all)), t)
    ensures Shares(Literals(o, all))
  {
    hide Content, Literals, Bytes, Entries, StandsAt, Built, Fetched, IsLiteral;
    LiteralsIn(o, all);
    var l := Literals(o, all);
    forall j | 0 <= j < |l|
      ensures StandsAt(Bytes(l), Entries(l, map[], 0, 0)[j], Content(l[j]))
    {
      LiteralPlaced(o, m, all, j);
      FetchedIff(o, m, all, Bytes(l), l[j], Entries(l, map[], 0, 0)[j]);
    }
  }

  // Two tokens of one text

  /** A string and a hexadecimal string of one text, in either order. */
  function Two(first: Item, second: Item): Body {
    Link(Token(0, first), Link(Token(1, second), End))
  }

  lemma TwoAll(first: Item, second: Item)
    requires !first.Array? && !first.Proc? && !second.Array? && !second.Proc?
    ensures All(Two(first, second)) == [Token(0, first), Token(1, second)]
  {
    var b := Two(first, second);
    assert Push(b.next, []) == [] && Push(b, []) == [];
    assert Toks(b.next) == [b.next.token] && Toks(b) == [b.token] + [b.next.token];
    assert Flat([]) == [];
  }

  lemma TwoLiterals(o: Options, t: Token, u: Token)
    requires TextOk(t) && TextOk(u) && IsLiteral(o, t) && IsLiteral(o, u) && Text(t) == Text(u)
    ensures AllOk([t, u]) && Literals(o, [t, u]) == [u, t]
    ensures Bytes([u, t]) == Content(u) && Entries([u, t], map[], 0, 0) == [0, 0]
  {
    hide IsLiteral, Content, Text, TextOk;
    assert [t, u][..1] == [t] && [t][..0] == [];
    assert Literals(o, []) == [] && Literals(o, [t]) == [t];
    assert [u, t][1..] == [t] && [t][1..] == [];
    assert {} + {Text(u)} == {Text(u)};
    assert Chunks([t], {Text(u)}, 1) == [] && Chunks([u, t], {}, 0) == [Content(u)];
    assert Concat([]) == [] && Concat([Content(u)]) == Content(u) by { ConcatFirst(Content(u), []); }
  }

  lemma Digits33And41()
    ensures PswString.WellFormed("41") && PswString.Bytes("41") == [0x34, 0x31] && PswString.HexBytes("41") == [0x41]
    ensures PswString.WellFormed("33") && PswString.Bytes("33") == [0x33, 0x33] && PswString.HexBytes("33") == [0x33]
  {
    assert "41"[1..] == "1" && "33"[1..] == "3" && "1"[1..] == "" && "3"[1..] == "";
    assert "41"[2..] == "" && "33"[2..] == "";
    assert PswString.Bytes("1") == [0x31] && PswString.Bytes("3") == [0x33];
  }

  /** The tokens (41) <41> share the one byte of the second: the first cannot be read back. */
  lemma CollisionFails(o: Options, m: Places)
    ensures var b := Two(Str("41"), Hex("41"));
      && BodyOk(b) && AllOk(All(b)) && Bytes(Literals(o, All(b))) == [0x41] && !Shares(Literals(o, All(b)))
      && (Built(o, m, All(b)) ==> Decode(Records(o, m, All(b)), [0x41], 0, 2, 0) == None)
  {
    hide Literals, Entries, PswString.Bytes, PswString.HexBytes, PswString.WellFormed, Flat, Push, Settled;
    var t, u := Token(0, Str("41")), Token(1, Hex("41"));
    Digits33And41();
    TwoAll(t.item, u.item);
    TwoLiterals(o, t, u);
    TwoOk(t, u);
    var l := [u, t];
    assert !StandsAt(Bytes(l), Entries(l, map[], 0, 0)[1], Content(l[1]));
    if Built(o, m, [t, u]) {
      LiteralPlaced(o, m, [t, u], 1);
      NothingRead(o, m, t, u);
    }
  }

  lemma TwoOk(t: Token, u: Token)
    requires TextOk(t) && TextOk(u) && !Composite(t) && !Composite(u)
    ensures BodyOk(Link(t, Link(u, End)))
  {
    hide TextOk;
    assert BodyOk(End) && OkBelow(t) && OkBelow(u);
    assert BodyOk(Link(u, End));
  }

  lemma NothingRead(o: Options, m: Places, t: Token, u: Token)
    requires TextOk(t) && TextOk(u) && t.item.Str? && |Content(t)| == 2 && t.id in m && m[t.id] == 2 * DPS_BINOBJ_SIZE
    ensures Decode(Records(o, m, [t, u]), [0x41], 0, 2, 0) == None
  {
    hide Content, TextOk, Decode;
    var recs := Records(o, m, [t, u]);
    assert recs[0] == RString(2, 2 * DPS_BINOBJ_SIZE);
    assert Fetch(recs, [0x41], 2 * DPS_BINOBJ_SIZE, 2) == None;
    assert DecodeOne(recs, [0x41], recs[0], 1, 0) == None;
    FirstUnread(recs, [0x41], 2, 0);
  }

  lemma FirstUnread(recs: seq<Rec>, bytes: seq<int>, n: nat, depth: nat)
    requires 0 < n && recs != [] && DecodeOne(recs, bytes, recs[0], n - 1, depth) == None
    ensures Decode(recs, bytes, 0, n, depth) == None
  {
    hide DecodeOne;
  }

  /** The tokens <33> (33) are not of the same bytes, and yet are read back. */
  lemma CollisionShares(o: Options)
    ensures var b := Two(Hex("33"), Str("33"));
      BodyOk(b) && AllOk(All(b)) && !Consistent(Literals(o, All(b))) && Shares(Literals(o, All(b)))
  {
    hide Literals, Entries, PswString.Bytes, PswString.HexBytes, PswString.WellFormed, Flat, Push, Settled;
    var t, u := Token(0, Hex("33")), Token(1, Str("33"));
    Digits33And41();
    TwoAll(t.item, u.item);
    TwoLiterals(o, t, u);
    TwoOk(t, u);
    var l := [u, t];
    assert Text(l[0]) == Text(l[1]) && Content(l[0]) != Content(l[1]);
  }

  // How many texts are shared

  /**
    A text that comes twice behind n others, all different, is laid out once just when n is at most 256.  (The
    number laid out so far is compared with the size of the dictionary before one more is entered.)
   */
  lemma TwiceIff(l: seq<Token>, t: Token)
    requires AllOk(l + [t, t]) && AllOk(l) && (forall i :: 0 <= i < |l| ==> Text(l[i]) != Text(t))
    requires forall i, j :: 0 <= i < j < |l| ==> Text(l[i]) != Text(l[j])
    ensures |Chunks(l + [t, t], {}, 0)| == |l| + if |l| <= 256 then 1 else 2
  {
    Twice(l, t, {}, 0);
  }

  lemma ChunkAlone(t: Token, keys: set<string>, count: nat)
    requires AllOk([t])
    ensures |Chunks([t], keys, count)| == if Text(t) in keys then 0 else 1
  {
    hide Content, Text, TextOk;
    assert [t][1..] == [];
  }

  lemma {:induction false} Twice(l: seq<Token>, t: Token, keys: set<string>, count: nat)
    requires AllOk(l + [t, t]) && (forall i :: 0 <= i < |l| ==> Text(l[i]) != Text(t) && Text(l[i]) !in keys)
    requires Text(t) !in keys && forall i, j :: 0 <= i < j < |l| ==> Text(l[i]) != Text(l[j])
    ensures |Chunks(l + [t, t], keys, count)| == |l| + if count + |l| <= 256 then 1 else 2
    decreases |l|
  {
    hide Content, Text, TextOk;
    var all := l + [t, t];
    if l == [] {
      assert all == [t, t] && all[1..] == [t];
      ChunkAlone(t, keys, count);
      ChunkAlone(t, keys + {Text(t)}, count + 1);
    } else {
      assert all[1..] == l[1..] + [t, t] && all[0] == l[0];
      if count <= MAXSTRINGS {
        Twice(l[1..], t, keys + {Text(l[0])}, count + 1);
      } else {
        Twice(l[1..], t, keys, count);
      }
    }
  }
}
