/**
  The layout of a wrap: its tokens, in the order a worklist that is last in, first out visits their bodies,
  become records of eight bytes, and the strings follow the records.  A reader who knows no more than the
  number of top-level records and follows counts and offsets finds the tokens again.
 */
module PswLayout {
  import PswString

  /** The place a token has in memory tells it from all others. */
  datatype Token = Token(id: nat, item: Item)

  datatype Item =
    | Bool(b: int)
    | Int(i: int)
    | Real(text: string)
    | Str(s: string)
    | Hex(s: string)
    | Name(s: string)
    | LitName(s: string)
    | Array(body: Body)
    | Proc(body: Body)

  datatype Body = End | Link(token: Token, next: Body)

  const DPS_BINOBJ_SIZE := 8
  const MAXSTRINGS := 256

  /** The flag -n, and the names known to every interpreter. */
  datatype Options = Options(noUserNames: bool, wellKnown: map<string, int>)

  function NumTokens(b: Body): nat {
    if b.End? then 0 else 1 + NumTokens(b.next)
  }

  function Toks(b: Body): (ts: seq<Token>)
    ensures |ts| == NumTokens(b)
  {
    if b.End? then [] else [b.token] + Toks(b.next)
  }

  predicate Composite(t: Token) {
    t.item.Array? || t.item.Proc?
  }

  function BodyOf(t: Token): Body {
    if Composite(t) then t.item.body else End
  }

  // The order of visits

  /** The worklist w once the bodies of the tokens in b have been put on it. */
  function Push(b: Body, w: seq<Token>): seq<Token> {
    if b.End? then w else Push(b.next, if Composite(b.token) then [b.token] + w else w)
  }

  function Count(b: Body): nat {
    if b.End? then 0 else 1 + (if Composite(b.token) then Count(b.token.item.body) else 0) + Count(b.next)
  }

  function WorkCount(w: seq<Token>): nat {
    if w == [] then 0 else Count(BodyOf(w[0])) + WorkCount(w[1..])
  }

  lemma {:induction false} PushCount(b: Body, w: seq<Token>)
    ensures WorkCount(Push(b, w)) + NumTokens(b) == WorkCount(w) + Count(b)
    decreases b
  {
    if b.Link? {
      var w' := if Composite(b.token) then [b.token] + w else w;
      PushCount(b.next, w');
      assert Composite(b.token) ==> w'[1..] == w;
    }
  }

  lemma NoTokens(b: Body, w: seq<Token>)
    ensures NumTokens(b) == 0 ==> Push(b, w) == w
  {
  }

  /** The tokens of the bodies on the worklist, and of all below them, as they are visited. */
  function Flat(w: seq<Token>): seq<Token>
    decreases WorkCount(w), |w|
  {
    if w == [] then [] else
      PushCount(BodyOf(w[0]), w[1..]);
      NoTokens(BodyOf(w[0]), w[1..]);
      Toks(BodyOf(w[0])) + Flat(Push(BodyOf(w[0]), w[1..]))
  }

  function All(body: Body): seq<Token> {
    Toks(body) + Flat(Push(body, []))
  }

  // Strings

  function Text(t: Token): string {
    match t.item
    case Str(s) => s
    case Hex(s) => s
    case Name(s) => s
    case LitName(s) => s
    case _ => ""
  }

  /** The texts of a wrap are as the scanner leaves them. */
  predicate TextOk(t: Token) {
    t.item.Str? || t.item.Name? || t.item.LitName? ==> PswString.WellFormed(Text(t))
  }

  function Content(t: Token): seq<int>
    requires TextOk(t)
  {
    match t.item
    case Hex(s) => PswString.HexBytes(s)
    case Str(s) => PswString.Bytes(s)
    case Name(s) => PswString.Bytes(s)
    case LitName(s) => PswString.Bytes(s)
    case _ => []
  }

  /** The tokens whose text has to be laid out. */
  predicate IsLiteral(o: Options, t: Token)
    requires TextOk(t)
  {
    match t.item
    case Str(_) => Content(t) != []
    case Hex(_) => Content(t) != []
    case Name(s) => o.noUserNames && s !in o.wellKnown
    case LitName(s) => o.noUserNames && s !in o.wellKnown
    case _ => false
  }

  predicate AllOk(ts: seq<Token>) {
    forall i :: 0 <= i < |ts| ==> TextOk(ts[i])
  }

  /** They are listed with the last one first. */
  function Literals(o: Options, ts: seq<Token>): (l: seq<Token>)
    requires AllOk(ts)
    ensures AllOk(l)
  {
    if ts == [] then [] else
      var t := ts[|ts| - 1];
      (if IsLiteral(o, t) then [t] else []) + Literals(o, ts[..|ts| - 1])
  }

  /** The strings laid out for a list: none for a text laid out before, as long as the dictionary took it. */
  function Chunks(l: seq<Token>, keys: set<string>, count: nat): seq<seq<int>>
    requires AllOk(l)
    decreases |l|
  {
    if l == [] then []
    else if Text(l[0]) in keys then Chunks(l[1..], keys, count)
    else if count <= MAXSTRINGS then [Content(l[0])] + Chunks(l[1..], keys + {Text(l[0])}, count + 1)
    else [Content(l[0])] + Chunks(l[1..], keys, count)
  }

  function Concat(c: seq<seq<int>>): seq<int> {
    if c == [] then [] else c[0] + Concat(c[1..])
  }

  // Records

  datatype Rec =
    | RBool(b: int)
    | RInt(i: int)
    | RReal(text: string)
    | RArray(exec: bool, length: nat, offset: int)
    | RString(length: nat, offset: int)
    | RName(exec: bool, length: nat, offset: int)
    | RSystemName(exec: bool, tag: int)
    | RUserName(exec: bool)   // its index is filled in at run time

  /** Where the bodies of tokens are, by the token; 0 to begin with. */
  type Places = map<nat, int>

  function Place(m: Places, t: Token): int {
    if t.id in m then m[t.id] else 0
  }

  function RecOf(o: Options, m: Places, t: Token): Rec
    requires TextOk(t)
  {
    match t.item
    case Bool(b) => RBool(b)
    case Int(i) => RInt(i)
    case Real(text) => RReal(text)
    case Array(b) => RArray(false, NumTokens(b), Place(m, t))
    case Proc(b) => RArray(true, NumTokens(b), Place(m, t))
    case Str(_) => RString(|Content(t)|, Place(m, t))
    case Hex(_) => RString(|Content(t)|, Place(m, t))
    case Name(s) =>
      if s in o.wellKnown then RSystemName(true, Place(m, t))
      else if o.noUserNames then RName(true, |Content(t)|, Place(m, t)) else RUserName(true)
    case LitName(s) =>
      if s in o.wellKnown then RSystemName(false, Place(m, t))
      else if o.noUserNames then RName(false, |Content(t)|, Place(m, t)) else RUserName(false)
  }

  function Records(o: Options, m: Places, ts: seq<Token>): (r: seq<Rec>)
    requires AllOk(ts)
    ensures |r| == |ts|
    ensures forall i :: 0 <= i < |ts| ==> r[i] == RecOf(o, m, ts[i])
  {
    seq(|ts|, i requires 0 <= i < |ts| => RecOf(o, m, ts[i]))
  }

  // Reading a layout

  datatype Val =
    | VBool(b: int)
    | VInt(i: int)
    | VReal(text: string)
    | VString(bytes: seq<int>)
    | VName(exec: bool, bytes: seq<int>)
    | VSystemName(exec: bool, tag: int)
    | VUserName(exec: bool)
    | VArray(exec: bool, elements: seq<Val>)

  datatype Option<T> = None | Some(value: T)

  function MeaningOf(o: Options, t: Token): Val
    requires OkBelow(t)
    decreases t, 0
  {
    match t.item
    case Bool(b) => VBool(b)
    case Int(i) => VInt(i)
    case Real(text) => VReal(text)
    case Array(b) => VArray(false, Meaning(o, b))
    case Proc(b) => VArray(true, Meaning(o, b))
    case Str(_) => VString(Content(t))
    case Hex(_) => VString(Content(t))
    case Name(s) => if s in o.wellKnown then VSystemName(true, o.wellKnown[s]) else if o.noUserNames then VName(true, Content(t)) else VUserName(true)
    case LitName(s) => if s in o.wellKnown then VSystemName(false, o.wellKnown[s]) else if o.noUserNames then VName(false, Content(t)) else VUserName(false)
  }

  function Meaning(o: Options, b: Body): seq<Val>
    requires BodyOk(b)
    decreases b, 1
  {
    if b.End? then [] else [MeaningOf(o, b.token)] + Meaning(o, b.next)
  }

  predicate OkBelow(t: Token)
    decreases t, 0
  {
    TextOk(t) && (Composite(t) ==> BodyOk(t.item.body))
  }

  predicate BodyOk(b: Body)
    decreases b, 1
  {
    b.Link? ==> OkBelow(b.token) && BodyOk(b.next)
  }

  function Depth(b: Body): nat
    decreases b
  {
    if b.End? then 0 else
      var d := if Composite(b.token) then 1 + Depth(b.token.item.body) else 0;
      var n := Depth(b.next);
      if d > n then d else n
  }

  /** The bytes at an offset: those of strings stand behind the records. */
  function Fetch(recs: seq<Rec>, bytes: seq<int>, offset: int, length: nat): Option<seq<int>> {
    var j := offset - DPS_BINOBJ_SIZE * |recs|;
    if length == 0 then Some([]) else if 0 <= j && j + length <= |bytes| then Some(bytes[j..j + length]) else None
  }

  /** What n records from the p-th on say, to a depth of arrays within arrays. */
  function Decode(recs: seq<Rec>, bytes: seq<int>, p: nat, n: nat, depth: nat): Option<seq<Val>>
    decreases depth, n, 0
  {
    if n == 0 then Some([])
    else if p >= |recs| then None
    else
      var v := DecodeOne(recs, bytes, recs[p], n - 1, depth);
      var rest := Decode(recs, bytes, p + 1, n - 1, depth);
      if v.None? || rest.None? then None else Some([v.value] + rest.value)
  }

  function DecodeOne(recs: seq<Rec>, bytes: seq<int>, rec: Rec, n: nat, depth: nat): Option<Val>
    decreases depth, n, 1
  {
    match rec
    case RBool(b) => Some(VBool(b))
    case RInt(i) => Some(VInt(i))
    case RReal(text) => Some(VReal(text))
    case RSystemName(exec, tag) => Some(VSystemName(exec, tag))
    case RUserName(exec) => Some(VUserName(exec))
    case RString(length, offset) =>
      var b := Fetch(recs, bytes, offset, length);
      if b.None? then None else Some(VString(b.value))
    case RName(exec, length, offset) =>
      var b := Fetch(recs, bytes, offset, length);
      if b.None? then None else Some(VName(exec, b.value))
    case RArray(exec, length, offset) =>
      if depth == 0 || offset < 0 || offset % DPS_BINOBJ_SIZE != 0 then None
      else
        var e := Decode(recs, bytes, offset / DPS_BINOBJ_SIZE, length, depth - 1);
        if e.None? then None else Some(VArray(exec, e.value))
  }

  // What a layout must be like

  /** The body of a composite token stands where its place says. */
  predicate BodyPlaced(m: Places, all: seq<Token>, t: Token) {
    && t.id in m && m[t.id] >= 0 && m[t.id] % DPS_BINOBJ_SIZE == 0
    && var p := m[t.id] / DPS_BINOBJ_SIZE; p + NumTokens(BodyOf(t)) <= |all| && all[p..p + NumTokens(BodyOf(t))] == Toks(BodyOf(t))
  }

  /** The bytes c stand at position j of bytes. */
  predicate StandsAt(bytes: seq<int>, j: int, c: seq<int>) {
    0 <= j && j + |c| <= |bytes| && bytes[j..j + |c|] == c
  }

  predicate StringPlaced(m: Places, base: int, bytes: seq<int>, t: Token)
    requires TextOk(t)
  {
    t.id in m && StandsAt(bytes, m[t.id] - base, Content(t))
  }

  predicate NamePlaced(o: Options, m: Places, t: Token) {
    (t.item.Name? || t.item.LitName?) && Text(t) in o.wellKnown ==> t.id in m && m[t.id] == o.wellKnown[Text(t)]
  }

  predicate Placed(o: Options, m: Places, all: seq<Token>, bytes: seq<int>)
    requires AllOk(all)
  {
    forall i :: 0 <= i < |all| ==>
      && (Composite(all[i]) ==> BodyPlaced(m, all, all[i]))
      && (IsLiteral(o, all[i]) ==> StringPlaced(m, DPS_BINOBJ_SIZE * |all|, bytes, all[i]))
      && NamePlaced(o, m, all[i])
  }

  // Round trip

  lemma {:induction false} DecodesBody(o: Options, m: Places, all: seq<Token>, bytes: seq<int>, b: Body, p: nat, depth: nat)
    requires AllOk(all) && Placed(o, m, all, bytes) && BodyOk(b) && Depth(b) <= depth
    requires p + NumTokens(b) <= |all| && all[p..p + NumTokens(b)] == Toks(b)
    ensures Decode(Records(o, m, all), bytes, p, NumTokens(b), depth) == Some(Meaning(o, b))
    decreases b, 1
  {
    hide RecOf, Content, DecodeOne, MeaningOf, OkBelow, Placed;
    if b.Link? {
      assert all[p] == b.token;
      assert all[p + 1..p + 1 + NumTokens(b.next)] == Toks(b.next) by { Tail(all, p, b); }
      DecodesToken(o, m, all, bytes, b.token, p, NumTokens(b) - 1, depth);
      DecodesBody(o, m, all, bytes, b.next, p + 1, depth);
    }
  }

  lemma Tail(all: seq<Token>, p: nat, b: Body)
    requires b.Link? && p + NumTokens(b) <= |all| && all[p..p + NumTokens(b)] == Toks(b)
    ensures all[p + 1..p + 1 + NumTokens(b.next)] == Toks(b.next)
  {
    assert all[p + 1..p + 1 + NumTokens(b.next)] == all[p..p + NumTokens(b)][1..];
    assert Toks(b)[1..] == Toks(b.next);
  }

  lemma {:induction false} DecodesToken(o: Options, m: Places, all: seq<Token>, bytes: seq<int>, t: Token, p: nat, n: nat, depth: nat)
    requires AllOk(all) && Placed(o, m, all, bytes) && OkBelow(t) && p < |all| && all[p] == t
    requires Composite(t) ==> 1 + Depth(t.item.body) <= depth
    ensures DecodeOne(Records(o, m, all), bytes, RecOf(o, m, t), n, depth) == Some(MeaningOf(o, t))
    decreases t, 0
  {
    hide Content, Decode, BodyOk, Records;
    if Composite(t) {
      var b := t.item.body;
      DecodesBody(o, m, all, bytes, b, m[t.id] / DPS_BINOBJ_SIZE, depth - 1);
    } else {
      FetchesText(o, m, all, bytes, t);
    }
  }

  lemma FetchesText(o: Options, m: Places, all: seq<Token>, bytes: seq<int>, t: Token)
    requires AllOk(all) && TextOk(t) && !Composite(t)
    requires IsLiteral(o, t) ==> StringPlaced(m, DPS_BINOBJ_SIZE * |all|, bytes, t)
    ensures IsLiteral(o, t) || Content(t) == [] ==>
      Fetch(Records(o, m, all), bytes, Place(m, t), |Content(t)|) == Some(Content(t))
  {
    hide Content;
  }

  /** A placed layout is read back as what the tokens mean. */
  lemma RoundTrip(o: Options, m: Places, body: Body, bytes: seq<int>)
    requires BodyOk(body) && AllOk(All(body)) && Placed(o, m, All(body), bytes)
    ensures Decode(Records(o, m, All(body)), bytes, 0, NumTokens(body), Depth(body)) == Some(Meaning(o, body))
  {
    hide Placed, Flat, BodyOk;
    assert All(body)[0..NumTokens(body)] == Toks(body);
    DecodesBody(o, m, All(body), bytes, body, 0, Depth(body));
  }

  // The texts of all tokens are in order if those of the body are

  predicate WorkOk(w: seq<Token>) {
    forall i :: 0 <= i < |w| ==> OkBelow(w[i])
  }

  lemma {:induction false} BodyTexts(b: Body, w: seq<Token>)
    requires BodyOk(b) && WorkOk(w)
    ensures AllOk(Toks(b)) && WorkOk(Push(b, w))
    decreases b
  {
    hide TextOk;
    if b.Link? { BodyTexts(b.next, if Composite(b.token) then [b.token] + w else w); }
  }

  lemma {:induction false} FlatTexts(w: seq<Token>)
    requires WorkOk(w)
    ensures AllOk(Flat(w))
    decreases WorkCount(w), |w|
  {
    hide TextOk;
    if w != [] {
      var b := BodyOf(w[0]);
      PushCount(b, w[1..]);
      NoTokens(b, w[1..]);
      BodyTexts(b, w[1..]);
      FlatTexts(Push(b, w[1..]));
    }
  }

  lemma AllTexts(body: Body)
    requires BodyOk(body)
    ensures AllOk(All(body))
  {
    hide TextOk, Flat;
    BodyTexts(body, []);
    FlatTexts(Push(body, []));
  }
}
