/**
  makedepend's symbol tables: arrays of pointers to definitions, sorted by name, that grow by SYMTABINC
  places at a time.  Tables may share definitions after a merge.
 */
module Symbols {
  datatype Option<T> = None | Some(value: T)

  /** A C string: no NUL before its end. */
  type Name = s: string | '\0' !in s

  const SYMTABINC := 10

  /** What a name stands for; no value once it has been undefined. */
  datatype Meaning = Meaning(args: Option<string>, value: Option<string>)

  class Symtab {
    const s_name: Name
    var s_args: Option<string>
    var s_value: Option<string>

    constructor (name: Name, args: Option<string>, value: Option<string>)
      ensures s_name == name && s_args == args && s_value == value
    {
      s_name, s_args, s_value := name, args, value;
    }
  }

  // The order of names

  predicate Less(a: string, b: string) {
    b != [] && (a == [] || a[0] < b[0] || (a[0] == b[0] && Less(a[1..], b[1..])))
  }

  lemma {:induction false} LessTransitive(a: string, b: string, c: string)
    requires Less(a, b) && Less(b, c)
    ensures Less(a, c)
    decreases |a|
  {
    if a != [] && a[0] == b[0] == c[0] { LessTransitive(a[1..], b[1..], c[1..]); }
  }

  lemma {:induction false} LessIrreflexive(a: string)
    ensures !Less(a, a)
    decreases |a|
  {
    if a != [] { LessIrreflexive(a[1..]); }
  }

  /** The character at i, or the NUL that ends the string. */
  function At(s: string, i: nat): char {
    if i < |s| then s[i] else '\0'
  }

  lemma {:induction false} LessFrom(a: Name, b: Name, i: nat)
    requires i <= |a| && i <= |b| && a[..i] == b[..i] && At(a, i) < At(b, i)
    ensures Less(a, b)
    decreases i
  {
    if i > 0 {
      assert a[0] == a[..i][0] == b[..i][0] == b[0];
      assert a[1..][..i - 1] == a[..i][1..] && b[1..][..i - 1] == b[..i][1..];
      LessFrom(a[1..], b[1..], i - 1);
    }
  }

  /** The inline comparison of two strings: 0 if they are equal, else positive if a comes after b. */
  method Compare(a: Name, b: Name) returns (order: int)
    ensures order == 0 ==> a == b
    ensures order > 0 ==> Less(b, a)
    ensures order < 0 ==> Less(a, b)
  {
    var i := 0;
    while At(a, i) == At(b, i)
      invariant i <= |a| && i <= |b| && a[..i] == b[..i]
      decreases |a| - i
    {
      if At(b, i) == '\0' {
        assert i == |a| == |b| by { NoNul(a, i); NoNul(b, i); }
        assert a == a[..i] && b == b[..i];
        return 0;
      }
      i := i + 1;
    }
    if At(a, i) > At(b, i) {
      LessFrom(b, a, i);
      order := 1;
    } else {
      LessFrom(a, b, i);
      order := -1;
    }
  }

  lemma NoNul(s: Name, i: nat)
    requires i <= |s| && At(s, i) == '\0'
    ensures i == |s|
  {
    assert forall k :: 0 <= k < |s| ==> s[k] in s;
  }

  // Tables

  predicate Sorted(s: seq<Symtab?>) {
    && (forall i :: 0 <= i < |s| ==> s[i] != null)
    && (forall i, j :: 0 <= i < j < |s| ==> Less(s[i].s_name, s[j].s_name))
  }

  lemma NamesDiffer(s: seq<Symtab?>, i: nat, j: nat)
    requires Sorted(s) && i < |s| && j < |s| && s[i].s_name == s[j].s_name
    ensures i == j
  {
    LessIrreflexive(s[i].s_name);
  }

  ghost predicate Has(s: seq<Symtab?>, name: string)
    requires Sorted(s)
  {
    exists i :: 0 <= i < |s| && s[i].s_name == name
  }

  /** What the names in a table stand for. */
  ghost function Defs(s: seq<Symtab?>): (m: map<string, Meaning>)
    requires Sorted(s)
    reads s
    ensures m.Keys == set i | 0 <= i < |s| :: s[i].s_name
    ensures forall i :: 0 <= i < |s| ==> m[s[i].s_name] == Meaning(s[i].s_args, s[i].s_value)
  {
    SortedUnique(s);
    map i | 0 <= i < |s| :: s[i].s_name := Meaning(s[i].s_args, s[i].s_value)
  }

  lemma SortedUnique(s: seq<Symtab?>)
    requires Sorted(s)
    ensures forall i, j :: 0 <= i < |s| && 0 <= j < |s| && s[i].s_name == s[j].s_name ==> i == j
  {
    forall i, j | 0 <= i < |s| && 0 <= j < |s| && s[i].s_name == s[j].s_name
      ensures i == j
    {
      NamesDiffer(s, i, j);
    }
  }

  /** n rounded up to a multiple of SYMTABINC. */
  function Rounded(n: nat): nat {
    n + (SYMTABINC - n % SYMTABINC) % SYMTABINC
  }

  class Inclist {
    var i_defs: array?<Symtab?>
    var i_ndefs: nat
    var finished: bool   // FINISHED in i_flags

    ghost function Entries(): seq<Symtab?>
      reads this, i_defs
    {
      if i_defs != null && i_ndefs <= i_defs.Length then i_defs[..i_ndefs] else []
    }

    /** Sorted without duplicates, and with the space that the number of definitions promises. */
    ghost predicate Valid()
      reads this, i_defs
    {
      && (if i_defs == null then i_ndefs == 0 else Rounded(i_ndefs) <= i_defs.Length)
      && Sorted(Entries())
    }

    constructor ()
      ensures Valid() && Entries() == [] && !finished
    {
      i_defs, i_ndefs, finished := null, 0, false;
    }

    /** The place of a name in the table. */
    method Slookup(symbol: Name) returns (place: int)
      requires Valid()
      ensures place == -1 <==> symbol !in Defs(Entries())
      ensures place != -1 ==> 0 <= place < |Entries()| && Entries()[place].s_name == symbol
    {
      var first, last := 0, i_ndefs - 1;
      while last >= first
        invariant 0 <= first <= last + 1 <= i_ndefs
        invariant forall i :: 0 <= i < first ==> Less(Entries()[i].s_name, symbol)
        invariant forall i :: last < i < i_ndefs ==> Less(symbol, Entries()[i].s_name)
      {
        var middle := (first + last) / 2;
        var order := Compare(symbol, i_defs[middle].s_name);
        if order == 0 { return middle; }
        if order > 0 {
          BelowToo(Entries(), middle, symbol);
          first := middle + 1;
        } else {
          AboveToo(Entries(), middle, symbol);
          last := middle - 1;
        }
      }
      NotThere(Entries(), first, symbol);
      place := -1;
    }

    /** Room for one more definition: new space at every multiple of SYMTABINC. */
    method MakeSpace()
      requires Valid()
      modifies this
      ensures Valid() && Entries() == old(Entries()) && i_ndefs == old(i_ndefs) && finished == old(finished)
      ensures i_defs != null && i_ndefs < i_defs.Length && Rounded(i_ndefs + 1) <= i_defs.Length
      ensures i_defs == old(i_defs) || fresh(i_defs)
    {
      if i_defs == null {
        i_defs := new Symtab?[SYMTABINC](_ => null);
      } else if i_ndefs % SYMTABINC == 0 {
        var more := new Symtab?[i_ndefs + SYMTABINC](_ => null);
        for i := 0 to i_ndefs
          invariant more[..i] == i_defs[..i]
          modifies more
        {
          more[i] := i_defs[i];
        }
        i_defs := more;
      }
      RoundedNext(i_ndefs);
    }

    /**
      The binary search of define2: the place of the name or, if it has none, the place of the last name
      before it, -1 if all come after.  (In an empty table it is 0.)
     */
    method Search(name: Name) returns (found: bool, below: int)
      requires Valid()
      ensures found ==> 0 <= below < i_ndefs && Entries()[below].s_name == name
      ensures !found ==> -1 <= below && (below < i_ndefs || below == 0 == i_ndefs)
      ensures !found ==>
        forall i :: 0 <= i < i_ndefs ==> if i <= below then Less(Entries()[i].s_name, name) else Less(name, Entries()[i].s_name)
    {
      var first, last := 0, i_ndefs - 1;
      below := 0;
      while last >= first
        invariant 0 <= first <= last + 1 <= i_ndefs
        invariant i_ndefs > 0 && last < first ==> below == last
        invariant i_ndefs == 0 ==> below == 0
        invariant forall i :: 0 <= i < first ==> Less(Entries()[i].s_name, name)
        invariant forall i :: last < i < i_ndefs ==> Less(name, Entries()[i].s_name)
      {
        var middle := (first + last) / 2;
        var order := Compare(name, i_defs[middle].s_name);
        if order == 0 { return true, middle; }
        if order > 0 {
          BelowToo(Entries(), middle, name);
          below := first;
          first := middle + 1;
        } else {
          AboveToo(Entries(), middle, name);
          last := middle - 1;
          below := last;
        }
      }
      found := false;
    }

    /** Definitions from dest on move up one place, and stab takes the place of the first. */
    method Insert(dest: nat, stab: Symtab)
      requires Valid() && i_defs != null && i_ndefs < i_defs.Length && Rounded(i_ndefs + 1) <= i_defs.Length
      requires dest <= i_ndefs
      requires forall i :: 0 <= i < i_ndefs ==>
        if i < dest then Less(Entries()[i].s_name, stab.s_name) else Less(stab.s_name, Entries()[i].s_name)
      modifies this, i_defs
      ensures Valid() && i_defs == old(i_defs) && finished == old(finished)
      ensures Entries() == old(Entries())[..dest] + [stab] + old(Entries())[dest..]
    {
      hide Sorted, Rounded, Less;
      ghost var was := Entries();
      var sp := i_ndefs;
      i_ndefs := i_ndefs + 1;
      while sp > dest
        invariant dest <= sp <= |was| && i_ndefs == |was| + 1 && i_defs == old(i_defs) && finished == old(finished)
        invariant forall i :: 0 <= i < sp ==> i_defs[i] == was[i]
        invariant forall i :: sp < i <= |was| ==> i_defs[i] == was[i - 1]
      {
        i_defs[sp] := i_defs[sp - 1];
        sp := sp - 1;
      }
      i_defs[sp] := stab;
      assert Entries() == was[..dest] + [stab] + was[dest..];
      InsertedSorted(was, dest, stab);
    }

    /** A definition is added, or one there is replaced. */
    method Define2(name: Name, args: Option<string>, val: Option<string>)
      requires Valid()
      modifies this, i_defs, Entries()
      ensures Valid() && finished == old(finished)
      ensures Defs(Entries()) == old(Defs(Entries()))[name := Meaning(args, val)]
      ensures name in old(Defs(Entries())) ==> Entries() == old(Entries())
      ensures forall e :: e in old(Entries()) && e != null && e.s_name != name ==> unchanged(e)
    {
      hide Defs, Sorted, Rounded, Less;
      ghost var was, m := Entries(), Defs(Entries());
      MakeSpace();
      var found, below := Search(name);
      if found {
        Redefine(below, name, args, val);
      } else {
        Add(if i_ndefs == 0 then 0 else below + 1, name, args, val);
        assert Defs(was) == m;
      }
    }

    method Add(dest: nat, name: Name, args: Option<string>, val: Option<string>)
      requires Valid() && i_defs != null && i_ndefs < i_defs.Length && Rounded(i_ndefs + 1) <= i_defs.Length
      requires dest <= i_ndefs
      requires forall i :: 0 <= i < i_ndefs ==>
        if i < dest then Less(Entries()[i].s_name, name) else Less(name, Entries()[i].s_name)
      modifies this, i_defs
      ensures Valid() && finished == old(finished)
      ensures Defs(Entries()) == Defs(old(Entries()))[name := Meaning(args, val)]
      ensures name !in Defs(old(Entries()))
    {
      hide Defs, Sorted, Rounded;
      ghost var was := Entries();
      var stab := new Symtab(name, args, val);
      Insert(dest, stab);
      DefsInserted(was, Entries(), dest, stab);
    }

    method Redefine(k: nat, name: Name, args: Option<string>, val: Option<string>)
      requires Valid() && k < i_ndefs && Entries()[k].s_name == name
      modifies Entries()[k]
      ensures Valid() && Defs(Entries()) == old(Defs(Entries()))[name := Meaning(args, val)]
      ensures name in old(Defs(Entries()))
    {
      ghost var m := Defs(Entries());
      SortedUnique(Entries());
      i_defs[k].s_args := args;
      i_defs[k].s_value := val;
      DefsReplaced(Entries(), m, k, Meaning(args, val));
    }

    /** A name undefined is defined as nothing. */
    method Undefine(symbol: Name)
      requires Valid()
      modifies this, i_defs, Entries()
      ensures Valid() && Defs(Entries()) == old(Defs(Entries()))[symbol := Meaning(None, None)]
    {
      Define2(symbol, None, None);
    }
  }

  lemma RoundedNext(n: nat)
    ensures Rounded(n + 1) == if n % SYMTABINC == 0 then n + SYMTABINC else Rounded(n)
  {
  }

  lemma DefsReplaced(s: seq<Symtab?>, m: map<string, Meaning>, k: nat, meaning: Meaning)
    requires Sorted(s) && k < |s| && m.Keys == (set i | 0 <= i < |s| :: s[i].s_name)
    requires forall i :: 0 <= i < |s| ==> if i == k then Meaning(s[i].s_args, s[i].s_value) == meaning
      else m[s[i].s_name] == Meaning(s[i].s_args, s[i].s_value)
    ensures Defs(s) == m[s[k].s_name := meaning]
  {
    SortedUnique(s);
  }

  function Means(e: Symtab): Meaning
    reads e
  {
    Meaning(e.s_args, e.s_value)
  }

  /** What a table stands for, by its elements. */
  lemma DefsAre(s: seq<Symtab?>, m: map<string, Meaning>)
    requires Sorted(s)
    requires forall e :: e in s ==> e != null && e.s_name in m && m[e.s_name] == Means(e)
    requires forall n :: n in m ==> exists e :: e in s && e != null && e.s_name == n
    ensures Defs(s) == m
  {
    forall n | n in m
      ensures n in Defs(s) && Defs(s)[n] == m[n]
    {
      var e :| e in s && e != null && e.s_name == n;
      var i :| 0 <= i < |s| && s[i] == e;
    }
    forall i | 0 <= i < |s|
      ensures s[i].s_name in m
    {
      assert s[i] in s;
    }
    assert Defs(s).Keys == m.Keys;
  }

  lemma DefsHave(s: seq<Symtab?>)
    requires Sorted(s)
    ensures forall e :: e in s ==> e != null && e.s_name in Defs(s) && Defs(s)[e.s_name] == Means(e)
    ensures forall n :: n in Defs(s) ==> exists e :: e in s && e != null && e.s_name == n
  {
    forall n | n in Defs(s)
      ensures exists e :: e in s && e != null && e.s_name == n
    {
      var i :| 0 <= i < |s| && s[i].s_name == n;
      assert s[i] in s;
    }
  }

  lemma InsertedElements(was: seq<Symtab?>, now: seq<Symtab?>, d: nat, stab: Symtab)
    requires d <= |was| && now == was[..d] + [stab] + was[d..]
    ensures forall e :: e in now <==> e in was || e == stab
  {
    assert was == was[..d] + was[d..];
  }

  lemma InsertedSorted(was: seq<Symtab?>, d: nat, stab: Symtab)
    requires Sorted(was) && d <= |was|
    requires forall i :: 0 <= i < |was| ==> if i < d then Less(was[i].s_name, stab.s_name) else Less(stab.s_name, was[i].s_name)
    ensures Sorted(was[..d] + [stab] + was[d..])
  {
  }

  lemma NewName(now: seq<Symtab?>, d: nat, e: Symtab)
    requires Sorted(now) && d < |now| && e in now[..d] + now[d + 1..]
    ensures e.s_name != now[d].s_name
  {
    SortedUnique(now);
  }

  lemma DefsInserted(was: seq<Symtab?>, now: seq<Symtab?>, d: nat, stab: Symtab)
    requires Sorted(was) && Sorted(now) && d <= |was| && now == was[..d] + [stab] + was[d..]
    ensures Defs(now) == Defs(was)[stab.s_name := Means(stab)]
    ensures stab.s_name !in Defs(was)
  {
    hide Defs, Sorted;
    DefsHave(was);
    InsertedElements(was, now, d, stab);
    assert now[d] == stab && now[..d] + now[d + 1..] == was[..d] + was[d..] == was;
    forall e | e in was
      ensures e.s_name != stab.s_name
    {
      NewName(now, d, e);
    }
    DefsAre(now, Defs(was)[stab.s_name := Means(stab)]);
  }

  lemma BelowToo(s: seq<Symtab?>, k: nat, name: string)
    requires Sorted(s) && k < |s| && Less(s[k].s_name, name)
    ensures forall i :: 0 <= i <= k ==> Less(s[i].s_name, name)
  {
    forall i | 0 <= i <= k
      ensures Less(s[i].s_name, name)
    {
      if i < k { LessTransitive(s[i].s_name, s[k].s_name, name); }
    }
  }

  lemma AboveToo(s: seq<Symtab?>, k: nat, name: string)
    requires Sorted(s) && k < |s| && Less(name, s[k].s_name)
    ensures forall i :: k <= i < |s| ==> Less(name, s[i].s_name)
  {
    forall i | k <= i < |s|
      ensures Less(name, s[i].s_name)
    {
      if i > k { LessTransitive(name, s[k].s_name, s[i].s_name); }
    }
  }

  lemma NotThere(s: seq<Symtab?>, k: nat, name: string)
    requires Sorted(s) && k <= |s|
    requires forall i :: 0 <= i < k ==> Less(s[i].s_name, name)
    requires forall i :: k <= i < |s| ==> Less(name, s[i].s_name)
    ensures forall i :: 0 <= i < |s| ==> s[i].s_name != name
  {
    LessIrreflexive(name);
  }

  // Merging

  /** All of out comes before name. */
  predicate Before(out: seq<Symtab?>, name: string)
    requires forall e :: e in out ==> e != null
  {
    forall e :: e in out ==> Less(e.s_name, name)
  }

  ghost predicate Named(s: seq<Symtab?>, name: string) {
    exists e :: e in s && e != null && e.s_name == name
  }

  /** The first f1 and f2 definitions of the tables have been merged into out. */
  ghost predicate Merged(s1: seq<Symtab?>, f1: nat, s2: seq<Symtab?>, f2: nat, out: seq<Symtab?>) {
    && Sorted(s1) && Sorted(s2) && Sorted(out) && f1 <= |s1| && f2 <= |s2| && |out| <= f1 + f2
    && (forall e :: e in out ==> e != null && (e in s1[..f1] || e in s2[..f2]))
    && (forall e :: e in s2[..f2] ==> e in out)
    && (forall e :: e in s1[..f1] ==> e in out || (e != null && Named(s2[..f2], e.s_name)))
    && (forall i :: f1 <= i < |s1| ==> Before(out, s1[i].s_name))
    && (forall i :: f2 <= i < |s2| ==> Before(out, s2[i].s_name))
  }

  lemma OneMoreElement(s: seq<Symtab?>, f: nat)
    requires f < |s|
    ensures forall e :: e in s[..f + 1] <==> e in s[..f] || e == s[f]
  {
    assert s[..f + 1] == s[..f] + [s[f]];
  }

  lemma NamedMore(s: seq<Symtab?>, f: nat)
    requires f < |s|
    ensures forall n :: Named(s[..f], n) ==> Named(s[..f + 1], n)
    ensures s[f] != null ==> Named(s[..f + 1], s[f].s_name)
  {
    OneMoreElement(s, f);
  }

  lemma AppendSorted(out: seq<Symtab?>, e: Symtab)
    requires Sorted(out) && (forall x :: x in out ==> x != null) && Before(out, e.s_name)
    ensures Sorted(out + [e])
  {
  }

  lemma BeforeMore(out: seq<Symtab?>, e: Symtab, name: string)
    requires (forall x :: x in out ==> x != null) && Before(out, name) && Less(e.s_name, name)
    ensures Before(out + [e], name)
  {
  }

  /** The next definition of the first table comes first. */
  lemma TakeFirst(s1: seq<Symtab?>, f1: nat, s2: seq<Symtab?>, f2: nat, out: seq<Symtab?>)
    requires Merged(s1, f1, s2, f2, out) && f1 < |s1| && (f2 < |s2| ==> Less(s1[f1].s_name, s2[f2].s_name))
    ensures Merged(s1, f1 + 1, s2, f2, out + [s1[f1]])
  {
    hide Named;
    OneMoreElement(s1, f1);
    AppendSorted(out, s1[f1]);
    forall i | f1 + 1 <= i < |s1|
      ensures Before(out + [s1[f1]], s1[i].s_name)
    {
      BeforeMore(out, s1[f1], s1[i].s_name);
    }
    forall i | f2 <= i < |s2|
      ensures Before(out + [s1[f1]], s2[i].s_name)
    {
      AboveToo(s2, f2, s1[f1].s_name);
      BeforeMore(out, s1[f1], s2[i].s_name);
    }
  }

  /** The next definition of the second table comes first, or has the same name as that of the first and overrides it. */
  lemma TakeSecond(s1: seq<Symtab?>, f1: nat, s2: seq<Symtab?>, f2: nat, out: seq<Symtab?>, same: bool)
    requires Merged(s1, f1, s2, f2, out) && f2 < |s2|
    requires same ==> f1 < |s1| && s1[f1].s_name == s2[f2].s_name
    requires !same && f1 < |s1| ==> Less(s2[f2].s_name, s1[f1].s_name)
    ensures Merged(s1, if same then f1 + 1 else f1, s2, f2 + 1, out + [s2[f2]])
  {
    hide Named;
    var g1 := if same then f1 + 1 else f1;
    OneMoreElement(s2, f2);
    NamedMore(s2, f2);
    if same { OneMoreElement(s1, f1); }
    AppendSorted(out, s2[f2]);
    forall i | f2 + 1 <= i < |s2|
      ensures Before(out + [s2[f2]], s2[i].s_name)
    {
      BeforeMore(out, s2[f2], s2[i].s_name);
    }
    forall i | g1 <= i < |s1|
      ensures Before(out + [s2[f2]], s1[i].s_name)
    {
      if !same { AboveToo(s1, f1, s2[f2].s_name); }
      BeforeMore(out, s2[f2], s1[i].s_name);
    }
  }

  /** When both tables are through, the second one's definitions override the first one's. */
  lemma AllMerged(s1: seq<Symtab?>, s2: seq<Symtab?>, out: seq<Symtab?>)
    requires Merged(s1, |s1|, s2, |s2|, out)
    ensures Sorted(s1) && Sorted(s2) && Sorted(out) && Defs(out) == Defs(s1) + Defs(s2)
  {
    hide Defs, Sorted, Before;
    assert s1[..|s1|] == s1 && s2[..|s2|] == s2;
    DefsHave(s1);
    DefsHave(s2);
    var m := Defs(s1) + Defs(s2);
    forall e | e in out
      ensures e != null && e.s_name in m && m[e.s_name] == Means(e)
    {
      if e !in s2 && e.s_name in Defs(s2) {
        var x :| x in s2 && x != null && x.s_name == e.s_name;
        SameName(out, e, x);
      }
    }
    DefsAre(out, m);
  }

  lemma SameName(out: seq<Symtab?>, e: Symtab, x: Symtab)
    requires Sorted(out) && e in out && x in out && e.s_name == x.s_name
    ensures e == x
  {
    SortedUnique(out);
  }

  /** The definitions of a file that has been read through are merged into those of another, which they override. */
  method Merge2Defines(file1: Inclist?, file2: Inclist?)
    requires file1 != null ==> file1.Valid()
    requires file2 != null ==> file2.Valid()
    modifies file1
    ensures file1 != null ==> file1.Valid() && file1.finished == old(file1.finished)
    ensures file1 != null && file2 != null && old(file2.finished) ==>
      Defs(file1.Entries()) == old(Defs(file1.Entries())) + old(Defs(file2.Entries()))
    ensures file1 != null && !(file2 != null && old(file2.finished)) ==> unchanged(file1)
  {
    if file1 != null && file2 != null && file2.finished { Merge(file1, file2); }
  }

  method Merge(file1: Inclist, file2: Inclist)
    requires file1.Valid() && file2.Valid()
    modifies file1
    ensures file1.Valid() && file1.finished == old(file1.finished)
    ensures Defs(file1.Entries()) == old(Defs(file1.Entries())) + old(Defs(file2.Entries()))
  {
    hide Defs, Merged, Sorted;
    ghost var s1, s2 := file1.Entries(), file2.Entries();
    ghost var m1, m2 := Defs(s1), Defs(s2);
    MergeTables(file1, file2);
    assert Defs(s1) == m1 && Defs(s2) == m2;
    AllMerged(s1, s2, file1.Entries());
  }

  method MergeTables(file1: Inclist, file2: Inclist)
    requires file1.Valid() && file2.Valid()
    modifies file1
    ensures file1.Valid() && file1.finished == old(file1.finished)
    ensures var s1, s2 := old(file1.Entries()), old(file2.Entries());
      Merged(s1, |s1|, s2, |s2|, file1.Entries())
  {
    hide Merged, Sorted, Rounded;
    ghost var s1, s2 := file1.Entries(), file2.Entries();
    var deflen := file1.i_ndefs + file2.i_ndefs;
    if deflen == 0 {
      NothingMerged(s1, s2);
      MergedSorted(s1, s2, []);
      file1.i_defs := null;
      file1.i_ndefs := 0;
    } else {
      var i_defs := new Symtab?[Rounded(deflen)](_ => null);
      RoundedGrows(deflen, deflen);
      var first := MergeArrays(file1, file2, i_defs);
      RoundedGrows(first, deflen);
      MergedSorted(s1, s2, i_defs[..first]);
      file1.i_defs := i_defs;
      file1.i_ndefs := first;
    }
  }

  lemma MergedSorted(s1: seq<Symtab?>, s2: seq<Symtab?>, out: seq<Symtab?>)
    requires Merged(s1, |s1|, s2, |s2|, out)
    ensures Sorted(out)
  {
    hide Sorted, Before, Named;
  }

  lemma RoundedGrows(n: nat, m: nat)
    requires n <= m
    ensures n <= Rounded(n) <= Rounded(m)
  {
  }

  lemma NothingMerged(s1: seq<Symtab?>, s2: seq<Symtab?>)
    requires Sorted(s1) && Sorted(s2)
    ensures Merged(s1, 0, s2, 0, [])
  {
  }

  /** Both tables, in order, into i_defs. */
  method MergeArrays(file1: Inclist, file2: Inclist, i_defs: array<Symtab?>) returns (first: nat)
    requires file1.Valid() && file2.Valid() && i_defs != file1.i_defs && i_defs != file2.i_defs
    requires file1.i_ndefs + file2.i_ndefs <= i_defs.Length
    modifies i_defs
    ensures first <= file1.i_ndefs + file2.i_ndefs
    ensures Merged(file1.Entries(), |file1.Entries()|, file2.Entries(), |file2.Entries()|, i_defs[..first])
  {
    hide Merged, Sorted;
    ghost var s1, s2 := file1.Entries(), file2.Entries();
    var first1, first2;
    first1, first2, first := MergeBoth(file1, file2, i_defs);
    while first1 < file1.i_ndefs
      invariant first1 <= |s1| && first2 <= |s2| && first <= first1 + first2 && (first1 == |s1| || first2 == |s2|)
      invariant Merged(s1, first1, s2, first2, i_defs[..first])
    {
      ghost var out := i_defs[..first];
      MergedNames(s1, first1, s2, first2, out);
      TakeFirst(s1, first1, s2, first2, out);
      Put(i_defs, first, file1.i_defs[first1]);
      first, first1 := first + 1, first1 + 1;
    }
    while first2 < file2.i_ndefs
      invariant first1 == |s1| && first2 <= |s2| && first <= first1 + first2
      invariant Merged(s1, first1, s2, first2, i_defs[..first])
    {
      ghost var out := i_defs[..first];
      MergedNames(s1, first1, s2, first2, out);
      TakeSecond(s1, first1, s2, first2, out, false);
      Put(i_defs, first, file2.i_defs[first2]);
      first, first2 := first + 1, first2 + 1;
    }
  }

  /** As long as there are definitions in both tables. */
  method MergeBoth(file1: Inclist, file2: Inclist, i_defs: array<Symtab?>) returns (first1: nat, first2: nat, first: nat)
    requires file1.Valid() && file2.Valid() && i_defs != file1.i_defs && i_defs != file2.i_defs
    requires file1.i_ndefs + file2.i_ndefs <= i_defs.Length
    modifies i_defs
    ensures first1 <= file1.i_ndefs && first2 <= file2.i_ndefs && first <= first1 + first2
    ensures first1 == file1.i_ndefs || first2 == file2.i_ndefs
    ensures Merged(file1.Entries(), first1, file2.Entries(), first2, i_defs[..first])
  {
    hide Merged, Sorted;
    ghost var s1, s2 := file1.Entries(), file2.Entries();
    first1, first2, first := 0, 0, 0;
    NothingMerged(s1, s2);
    assert i_defs[..0] == [];
    while first1 < file1.i_ndefs && first2 < file2.i_ndefs
      invariant first1 <= |s1| && first2 <= |s2| && first <= first1 + first2
      invariant Merged(s1, first1, s2, first2, i_defs[..first])
    {
      MergedNames(s1, first1, s2, first2, i_defs[..first]);
      ghost var out := i_defs[..first];
      var order := Compare(file1.i_defs[first1].s_name, file2.i_defs[first2].s_name);
      if order < 0 {
        TakeFirst(s1, first1, s2, first2, out);
        Put(i_defs, first, file1.i_defs[first1]);
        first1 := first1 + 1;
      } else {
        TakeSecond(s1, first1, s2, first2, out, order == 0);
        Put(i_defs, first, file2.i_defs[first2]);
        first2 := first2 + 1;
        if order == 0 { first1 := first1 + 1; }
      }
      first := first + 1;
    }
  }

  /** The next place is filled. */
  method Put(i_defs: array<Symtab?>, first: nat, e: Symtab?)
    requires first < i_defs.Length
    modifies i_defs
    ensures i_defs[..first + 1] == old(i_defs[..first]) + [e]
  {
    i_defs[first] := e;
  }

  lemma MergedNames(s1: seq<Symtab?>, f1: nat, s2: seq<Symtab?>, f2: nat, out: seq<Symtab?>)
    requires Merged(s1, f1, s2, f2, out)
    ensures f1 < |s1| ==> s1[f1] != null
    ensures f2 < |s2| ==> s2[f2] != null
  {
    hide Before, Named;
  }
}
