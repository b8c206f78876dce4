/**
  pswrap's dictionaries: hash buckets of linked entries, that behave like a map from strings to values.
 */
module PswDict {
  type Value = int

  class Entry {
    const name: string
    var value: Value
    var next: Entry?

    constructor (name: string, value: Value, next: Entry?)
      ensures this.name == name && this.value == value && this.next == next
    {
      this.name, this.value, this.next := name, value, next;
    }
  }

  /** What a char is worth where it is signed. */
  function CharValue(c: char): int {
    if c as int < 128 then c as int else c as int - 256
  }

  function Sum(name: string): int {
    if name == "" then 0 else Sum(name[..|name| - 1]) + CharValue(name[|name| - 1])
  }

  function HashOf(name: string, nEntries: int): (x: int)
    requires nEntries > 0
    ensures 0 <= x < nEntries
  {
    (if Sum(name) < 0 then -Sum(name) else Sum(name)) % nEntries
  }

  method Hash(name: string, nEntries: int) returns (x: int)
    requires nEntries > 0
    ensures x == HashOf(name, nEntries)
  {
    var val := 0;
    for i := 0 to |name|
      invariant val == Sum(name[..i])
    {
      assert name[..i + 1][..i] == name[..i];
      val := val + CharValue(name[i]);
    }
    assert name[..|name|] == name;
    if val < 0 { val := -val; }
    x := val % nEntries;
  }

  /** The entry at place i of a chain, null behind its end. */
  function EntryAt(chain: seq<Entry>, i: nat): Entry? {
    if i < |chain| then chain[i] else null
  }

  /** The entries of a chain, each linked to the next. */
  ghost predicate Linked(first: Entry?, chain: seq<Entry>, all: set<Entry>)
    requires forall i :: 0 <= i < |chain| ==> chain[i] in all
    reads all
  {
    && first == EntryAt(chain, 0)
    && (forall i :: 0 <= i < |chain| ==> chain[i].next == EntryAt(chain, i + 1))
  }

  predicate DistinctNames(chain: seq<Entry>) {
    forall i, j :: 0 <= i < j < |chain| ==> chain[i].name != chain[j].name
  }

  /** Bucket x of n: its entries are in all, have the names that belong there, and the values they have in m. */
  ghost predicate Bucket(x: nat, n: nat, first: Entry?, chain: seq<Entry>, m: map<string, Value>, all: set<Entry>)
    requires n > 0
    reads all
  {
    && (forall i :: 0 <= i < |chain| ==> chain[i] in all)
    && Linked(first, chain, all) && DistinctNames(chain)
    && (forall i :: 0 <= i < |chain| ==>
          var e := chain[i]; HashOf(e.name, n) == x && e.name in m && m[e.name] == e.value)
  }

  ghost predicate Named(chain: seq<Entry>, name: string) {
    exists e :: e in chain && e.name == name
  }

  class Dict {
    const entries: array<Entry?>
    ghost var chains: seq<seq<Entry>>
    ghost var Map: map<string, Value>
    ghost var Repr: set<Entry>

    ghost predicate Valid()
      reads this, entries, Repr
    {
      && entries.Length > 0 && |chains| == entries.Length
      && (forall x :: 0 <= x < |chains| ==> Bucket(x, entries.Length, entries[x], chains[x], Map, Repr))
      && (forall name :: name in Map ==> Named(chains[HashOf(name, entries.Length)], name))
    }

    /** A new dictionary; nEntries is a hint. */
    constructor (nEntries: nat)
      requires nEntries > 0
      ensures Valid() && Map == map[] && fresh(entries) && fresh(Repr)
    {
      entries := new Entry?[nEntries](_ => null);
      chains := seq(nEntries, _ => []);
      Map := map[];
      Repr := {};
    }

    /** The entry of a name in its bucket. */
    method Probe(x: nat, name: string) returns (e: Entry?)
      requires Valid() && x == HashOf(name, entries.Length)
      ensures e == null <==> name !in Map
      ensures e != null ==> e in Repr && e.name == name && e.value == Map[name] && e in chains[x]
    {
      hide HashOf;
      assert Bucket(x, entries.Length, entries[x], chains[x], Map, Repr);
      e := entries[x];
      ghost var i := 0;
      while e != null
        invariant 0 <= i <= |chains[x]|
        invariant e == if i < |chains[x]| then chains[x][i] else null
        invariant forall k :: 0 <= k < i ==> chains[x][k].name != name
        decreases |chains[x]| - i
      {
        if name == e.name { break; }
        e := e.next;
        i := i + 1;
      }
    }

    /** The value of a name; -1 if it has none. */
    method Lookup(name: string) returns (value: Value)
      requires Valid()
      ensures value == if name in Map then Map[name] else -1
    {
      var x := Hash(name, entries.Length);
      var e := Probe(x, name);
      value := if e == null then -1 else e.value;
    }

    /** A name is given a value; -1 if it had one. */
    method Enter(name: string, value: Value) returns (r: int)
      requires Valid()
      modifies this, entries, Repr
      ensures Valid() && fresh(Repr - old(Repr))
      ensures Map == old(Map)[name := value] && r == if name in old(Map) then -1 else 0
    {
      hide HashOf, Bucket, Named;
      var x := Hash(name, entries.Length);
      var e := Probe(x, name);
      if e != null {
        Replace(x, e, value);
        r := -1;
      } else {
        Prepend(x, name, value);
        r := 0;
      }
    }

    method Replace(x: nat, e: Entry, value: Value)
      requires Valid() && x < |chains| && e in chains[x]
      modifies `Map, e
      ensures Valid() && Map == old(Map)[e.name := value]
    {
      hide HashOf, EntryAt, Named;
      var n := entries.Length;
      InBucket(x, n, entries[x], chains[x], Map, Repr, e);
      Map := Map[e.name := value];
      e.value := value;
      forall y | 0 <= y < n
        ensures Bucket(y, n, entries[y], chains[y], Map, Repr)
      {
        var c := chains[y];
        assert old(Bucket(y, n, entries[y], c, Map, Repr));
        assert Linked(entries[y], c, Repr);
        assert forall i :: 0 <= i < |c| ==> HashOf(c[i].name, n) == y && (c[i].name == e.name ==> c[i] == e);
      }
      NameIn(chains[x], e);
    }

    method Prepend(x: nat, name: string, value: Value)
      requires Valid() && x < |chains| && x == HashOf(name, entries.Length) && name !in Map
      modifies `Map, `chains, `Repr, entries
      ensures Valid() && Map == old(Map)[name := value] && fresh(Repr - old(Repr))
    {
      hide HashOf, Bucket, Named;
      var n := entries.Length;
      ghost var was, m, all, firsts := chains, Map, Repr, entries[..];
      var e := new Entry(name, value, entries[x]);
      assert forall y :: 0 <= y < |was| ==> Bucket(y, n, firsts[y], was[y], m, all);
      entries[x] := e;
      chains := chains[x := [e] + chains[x]];
      Map := Map[name := value];
      Repr := Repr + {e};
      BucketPrepended(x, n, was[x], m, all, e);
      forall y | 0 <= y < |chains|
        ensures Bucket(y, n, entries[y], chains[y], Map, Repr)
      {
        if y != x { BucketMore(y, n, firsts[y], was[y], m, all, e); }
      }
      forall k | k in Map
        ensures Named(chains[HashOf(k, n)], k)
      {
        NamedMore(e, was[HashOf(k, n)]);
      }
    }
  }

  lemma NameIn(chain: seq<Entry>, e: Entry)
    requires e in chain
    ensures Named(chain, e.name)
  {
  }

  lemma InBucket(x: nat, n: nat, first: Entry?, chain: seq<Entry>, m: map<string, Value>, all: set<Entry>, e: Entry)
    requires n > 0 && Bucket(x, n, first, chain, m, all) && e in chain
    ensures HashOf(e.name, n) == x && e in all
  {
  }

  lemma NamedMore(e: Entry, chain: seq<Entry>)
    ensures Named([e] + chain, e.name)
    ensures forall k :: Named(chain, k) ==> Named([e] + chain, k)
  {
    assert e in [e] + chain;
  }

  lemma LinkedPrepended(chain: seq<Entry>, all: set<Entry>, e: Entry)
    requires (forall i :: 0 <= i < |chain| ==> chain[i] in all) && Linked(e.next, chain, all)
    ensures forall i :: 0 <= i < |[e] + chain| ==> ([e] + chain)[i] in all + {e}
    ensures Linked(e, [e] + chain, all + {e})
  {
    var c := [e] + chain;
    assert |c| == 1 + |chain| && c[0] == e;
    assert forall i :: 0 <= i < |chain| ==> c[i + 1] == chain[i];
    forall i | 0 <= i < |c|
      ensures c[i].next == EntryAt(c, i + 1)
    {
      if i > 0 { assert chain[i - 1].next == EntryAt(chain, i); }
    }
  }

  lemma BucketPrepended(x: nat, n: nat, chain: seq<Entry>, m: map<string, Value>, all: set<Entry>, e: Entry)
    requires n > 0 && HashOf(e.name, n) == x && e.name !in m && Bucket(x, n, e.next, chain, m, all)
    ensures Bucket(x, n, e, [e] + chain, m[e.name := e.value], all + {e})
  {
    hide HashOf;
    var c, more := [e] + chain, all + {e};
    assert |c| == 1 + |chain| && c[0] == e && forall i :: 0 < i < |c| ==> c[i] == chain[i - 1];
    assert forall i :: 0 <= i < |c| ==> c[i] in more;
    forall i, j | 0 <= i < j < |c|
      ensures c[i].name != c[j].name
    {
      assert chain[j - 1].name in m;
    }
    LinkedPrepended(chain, all, e);
  }

  lemma BucketMore(y: nat, n: nat, first: Entry?, chain: seq<Entry>, m: map<string, Value>, all: set<Entry>, e: Entry)
    requires n > 0 && e.name !in m && Bucket(y, n, first, chain, m, all)
    ensures Bucket(y, n, first, chain, m[e.name := e.value], all + {e})
  {
    hide HashOf;
    var more := all + {e};
    assert forall i :: 0 <= i < |chain| ==> chain[i] in more;
    assert Linked(first, chain, more);
  }
}
