/**
  The language of a regular expression, stated with no reference to the strip: which texts a node, a
  concatenation, and the branches of a choice stand for (section 9.4 of IEEE Std 1003.1, Base
  Definitions).
 */
module Language {
  import opened Strip

  ghost predicate Matches(sets: Sets, re: Re, w: Text)
    decreases re, 0
  {
    match re
    case Nil => w == []
    case Cons(h, t) => exists i :: 0 <= i <= |w| && MatchesNode(sets, h, w[..i]) && Matches(sets, t, w[i..])
  }

  ghost predicate MatchesNode(sets: Sets, n: Node, w: Text)
    decreases n, 0
  {
    match n
    case Lit(c) => w == [c]
    case Dot => |w| == 1
    case Set(k) => |w| == 1 && k < |sets| && w[0] in sets[k]
    case Open(_) => w == []
    case Shut(_) => w == []
    case Loop(b) => exists k: nat :: k >= 1 && Power(sets, b, k, w)
    case Maybe(b) => w == [] || Matches(sets, b, w)
    case Choice(f, o) => Matches(sets, f, w) || MatchesAlts(sets, o, w)
  }

  ghost predicate MatchesAlts(sets: Sets, a: Alts, w: Text)
    decreases a, 0
  {
    match a
    case Last(b) => Matches(sets, b, w)
    case More(b, o) => Matches(sets, b, w) || MatchesAlts(sets, o, w)
  }

  /** w is k texts of re, one after the other. */
  ghost predicate Power(sets: Sets, re: Re, k: nat, w: Text)
    decreases re, k + 1
  {
    if k == 0 then w == []
    else exists i :: 0 <= i <= |w| && Power(sets, re, k - 1, w[..i]) && Matches(sets, re, w[i..])
  }

  // Introduction and elimination of the splits above, on whole texts rather than slices.

  lemma MatchesCons(sets: Sets, h: Node, t: Re, u: Text, v: Text)
    requires MatchesNode(sets, h, u) && Matches(sets, t, v)
    ensures Matches(sets, Cons(h, t), u + v)
  {
    assert (u + v)[..|u|] == u && (u + v)[|u|..] == v;
  }

  lemma MatchesUncons(sets: Sets, h: Node, t: Re, w: Text) returns (i: nat)
    requires Matches(sets, Cons(h, t), w)
    ensures i <= |w| && MatchesNode(sets, h, w[..i]) && Matches(sets, t, w[i..])
  {
    i :| 0 <= i <= |w| && MatchesNode(sets, h, w[..i]) && Matches(sets, t, w[i..]);
  }

  lemma MatchesNil(sets: Sets, w: Text)
    ensures Matches(sets, Nil, w) <==> w == []
  {
  }

  lemma MatchesOne(sets: Sets, h: Node, u: Text)
    ensures Matches(sets, Cons(h, Nil), u) <==> MatchesNode(sets, h, u)
  {
    if MatchesNode(sets, h, u) {
      MatchesCons(sets, h, Nil, u, []);
      assert u + [] == u;
    }
    if Matches(sets, Cons(h, Nil), u) {
      var i :| 0 <= i <= |u| && MatchesNode(sets, h, u[..i]) && Matches(sets, Nil, u[i..]);
      assert u[..i] == u;
    }
  }

  lemma LoopTimes(sets: Sets, n: Node, w: Text) returns (k: nat)
    requires n.Loop? && MatchesNode(sets, n, w)
    ensures k >= 1 && Power(sets, n.body, k, w)
  {
    match n
    case Loop(b) => k :| k >= 1 && Power(sets, b, k, w);
  }

  lemma PowerNone(sets: Sets, re: Re, w: Text)
    ensures Power(sets, re, 0, w) <==> w == []
  {
  }

  lemma PowerSnoc(sets: Sets, re: Re, k: nat, u: Text, v: Text)
    requires Power(sets, re, k, u) && Matches(sets, re, v)
    ensures Power(sets, re, k + 1, u + v)
  {
    assert (u + v)[..|u|] == u && (u + v)[|u|..] == v;
  }

  lemma PowerOne(sets: Sets, re: Re, w: Text)
    ensures Power(sets, re, 1, w) <==> Matches(sets, re, w)
  {
    if Matches(sets, re, w) {
      PowerSnoc(sets, re, 0, [], w);
      assert [] + w == w;
    }
    if Power(sets, re, 1, w) {
      var i :| 0 <= i <= |w| && Power(sets, re, 0, w[..i]) && Matches(sets, re, w[i..]);
      assert w[i..] == w;
    }
  }

  lemma {:induction false} PowerAdd(sets: Sets, re: Re, j: nat, k: nat, u: Text, v: Text)
    requires Power(sets, re, j, u) && Power(sets, re, k, v)
    ensures Power(sets, re, j + k, u + v)
    decreases k
  {
    hide Matches;
    if k == 0 {
      assert u + v == u;
    } else {
      var i :| 0 <= i <= |v| && Power(sets, re, k - 1, v[..i]) && Matches(sets, re, v[i..]);
      PowerAdd(sets, re, j, k - 1, u, v[..i]);
      PowerSnoc(sets, re, j + k - 1, u + v[..i], v[i..]);
      assert u + v[..i] + v[i..] == u + v;
    }
  }

  lemma {:induction false} PowerSplit(sets: Sets, re: Re, j: nat, k: nat, w: Text) returns (i: nat)
    requires Power(sets, re, j + k, w)
    ensures i <= |w| && Power(sets, re, j, w[..i]) && Power(sets, re, k, w[i..])
    decreases k
  {
    hide Matches;
    if k == 0 {
      i := |w|;
      assert w[..i] == w;
    } else {
      var m :| 0 <= m <= |w| && Power(sets, re, j + k - 1, w[..m]) && Matches(sets, re, w[m..]);
      i := PowerSplit(sets, re, j, k - 1, w[..m]);
      PowerSnoc(sets, re, k - 1, w[..m][i..], w[m..]);
      assert w[..m][..i] == w[..i];
      assert w[..m][i..] + w[m..] == w[i..];
    }
  }

  lemma {:induction false} MatchesAppend(sets: Sets, a: Re, b: Re, u: Text, v: Text)
    requires Matches(sets, a, u) && Matches(sets, b, v)
    ensures Matches(sets, Append(a, b), u + v)
    decreases a
  {
    hide Matches, MatchesNode, Len;
    match a
    case Nil =>
      MatchesNil(sets, u);
      assert u + v == v;
    case Cons(h, t) =>
      var i := MatchesUncons(sets, h, t, u);
      MatchesAppend(sets, t, b, u[i..], v);
      MatchesCons(sets, h, Append(t, b), u[..i], u[i..] + v);
      assert u[..i] + (u[i..] + v) == u + v;
  }

  lemma {:induction false} MatchesSplit(sets: Sets, a: Re, b: Re, w: Text) returns (i: nat)
    requires Matches(sets, Append(a, b), w)
    ensures i <= |w| && Matches(sets, a, w[..i]) && Matches(sets, b, w[i..])
    decreases a
  {
    hide Matches, MatchesNode, Len;
    match a
    case Nil =>
      MatchesNil(sets, []);
      i := 0;
      assert w[..0] == [] && w[0..] == w;
    case Cons(h, t) =>
      var m := MatchesUncons(sets, h, Append(t, b), w);
      var j := MatchesSplit(sets, t, b, w[m..]);
      i := m + j;
      MatchesCons(sets, h, t, w[..m], w[m..][..j]);
      assert w[..m] + w[m..][..j] == w[..i];
      assert w[m..][j..] == w[i..];
  }
}
