/**
  matcher and regexec: is there a match, where, and what did the groups match.
 */
module Execution {
  import opened Strip
  import opened Language
  import opened Automaton
  import opened Correctness
  import opened Runs
  import opened Engine
  import opened Dissection
  import opened Subexpressions
  import M = Must

  datatype Rc = OKAY | NOMATCH | INVARG | BADPAT

  const MAGIC1 := 0xf265
  const MAGIC2 := 0xd245

  /** What a caller has of a compiled expression. */
  datatype Preg = Preg(magic: int, nsub: nat, g: Guts)

  predicate Intact(preg: Preg) {
    preg.magic == MAGIC1 && preg.g.magic == MAGIC2 && !preg.g.bad
  }

  /** g is what compiling re gives: its code between two end marks, and a must string that is sound. */
  ghost predicate Compiled(g: Guts, re: Re) {
    && g.strip == [Sop(OEND, 0)] + Code(re) + [Sop(OEND, 0)]
    && g.firststate == 0 && g.laststate == |g.strip| - 1
    && (g.must == [] || exists i: nat :: M.RunAt(M.Events(re), i, g.must))
    && (forall i: nat :: Paired(i, re, false))
    && (forall i: nat :: Occurs(i, re) ==> 1 <= i <= g.nsub)
  }

  /** Where in the string to look. */
  function Bounds(text: Text, pmatch: seq<Span>, eflags: Eflags): (int, int)
    requires eflags.startend ==> |pmatch| > 0
  {
    if eflags.startend then (pmatch[0].so, pmatch[0].eo) else (0, StrLen(text))
  }

  /** The length up to the terminating NUL, which stands at the end of text if nowhere before. */
  function StrLen(text: Text): (n: nat)
    ensures n <= |text| && (n < |text| ==> text[n] == '\0') && forall i :: 0 <= i < n ==> text[i] != '\0'
  {
    if text == [] || text[0] == '\0' then 0 else 1 + StrLen(text[1..])
  }

  function NoSpans(n: nat): seq<Span> {
    seq(n, _ => Span(-1, -1))
  }

  ghost predicate MatchIn(sets: Sets, re: Re, text: Text, start: nat, stop: nat)
    requires stop <= |text|
  {
    exists j, k :: start <= j <= k <= stop && Matches(sets, re, text[j..k])
  }

  /** Position p is where the first match to end, ends. */
  ghost predicate FirstEnd(sets: Sets, re: Re, text: Text, start: nat, p: nat)
    requires start <= p <= |text|
  {
    && (exists j :: start <= j <= p && Matches(sets, re, text[j..p]))
    && (forall j, k :: start <= j <= k < p ==> !Matches(sets, re, text[j..k]))
  }

  /** No match starts at one of the positions from a up to b. */
  ghost predicate NoStart(sets: Sets, re: Re, text: Text, a: nat, b: int, stop: nat)
    requires stop <= |text|
  {
    forall j, k :: a <= j < b && j <= k <= stop ==> !Matches(sets, re, text[j..k])
  }

  /** Position p is cold: every attempt under way there is in states a fresh start is in too. */
  ghost predicate ColdAt(g: Guts, text: Text, start: nat, p: nat)
    requires 0 < |g.strip| - 1 && start <= p <= |text|
  {
    forall j :: start <= j <= p ==>
      Run(g.strip, g.sets, 1, |g.strip| - 1, text[j..p]) <= Run(g.strip, g.sets, 1, |g.strip| - 1, [])
  }

  /**
    The span reported for the whole match: the longest match from its start, and the first start at or
    after the last cold position before a match ends.
   */
  ghost predicate Reported(g: Guts, re: Re, text: Text, start: nat, stop: nat, s: Span)
    requires 0 < |g.strip| - 1 && start <= stop <= |text|
  {
    exists coldp: nat, p: nat :: ReportedFrom(g, re, text, start, stop, s, coldp, p)
  }

  ghost predicate ReportedFrom(g: Guts, re: Re, text: Text, start: nat, stop: nat, s: Span, coldp: nat, p: nat)
    requires 0 < |g.strip| - 1 && start <= stop <= |text|
  {
    && start <= coldp <= p <= stop
    && FirstEnd(g.sets, re, text, start, p)
    && ColdAt(g, text, start, coldp) && (forall q :: coldp < q <= p ==> !ColdAt(g, text, start, q))
    && coldp <= s.so <= s.eo <= stop
    && NoStart(g.sets, re, text, coldp, s.so, stop)
    && Matches(g.sets, re, text[s.so..s.eo])
    && (forall k :: s.eo < k <= stop ==> !Matches(g.sets, re, text[s.so..k]))
  }

  /** Everything a caller can observe of one execution. */
  ghost predicate Outcome(g: Guts, re: Re, text: Text, before: seq<Span>, nmatch: nat, eflags: Eflags, rc: Rc, after: seq<Span>)
    requires 0 < |g.strip| - 1 && (eflags.startend ==> |before| > 0 && 0 <= before[0].so && before[0].eo <= |text|)
    requires nmatch <= |before|
  {
    var (start, stop) := Bounds(text, before, eflags);
    var n := if g.nosub then 0 else nmatch;
    && |after| == |before| && rc != BADPAT
    && (rc == INVARG <==> stop < start)
    && (rc == OKAY <==> start <= stop && MatchIn(g.sets, re, text, start, stop))
    && (forall i :: (if rc == OKAY then n else 0) <= i < |before| ==> after[i] == before[i])
    && (rc == OKAY && n > 0 ==>
          && Reported(g, re, text, start, stop, after[0])
          && GroupsReported(g, re, text, after, n))
  }

  /** The spans of the groups are those of the dissection rule; there are none for groups there are not. */
  ghost predicate GroupsReported(g: Guts, re: Re, text: Text, after: seq<Span>, n: nat)
    requires 0 < n <= |after|
  {
    && 0 <= after[0].so <= after[0].eo <= |text|
    && var spans := Dissected(g.sets, re, text, after[0].so, after[0].eo, NoSpans(g.nsub + 1));
       forall i :: 1 <= i < n ==> after[i] == if i <= g.nsub then spans[i] else Span(-1, -1)
  }

  lemma CompiledHolds(g: Guts, re: Re)
    requires Compiled(g, re)
    ensures |g.strip| == Len(re) + 2 && Holds(g, 1, re) && Region(g, 1, |g.strip| - 1)
  {
    hide Code, Len, At, WellFormed, Paired, Occurs;
    assert g.strip[1..1 + Len(re)] == Code(re);
    CodeIsAt(g.strip, 1, re);
    CodeWellFormed(g.strip, 1, re);
  }

  lemma HitIsMatch(g: Guts, re: Re, text: Text, gl: nat, a: nat, b: nat)
    requires Compiled(g, re) && gl == |g.strip| - 1 && Region(g, 1, gl) && a <= b <= |text|
    ensures Hits(g, text, 1, gl, a, b) <==> Matches(g.sets, re, text[a..b])
  {
    hide Code, Len, At, WellFormed, Paired, Occurs, Accepts, Matches;
    CompiledHolds(g, re);
    AcceptsLanguage(g.strip, g.sets, 1, re, text[a..b]);
  }

  lemma HitsAreMatches(g: Guts, re: Re, text: Text, gl: nat)
    requires Compiled(g, re) && gl == |g.strip| - 1 && Region(g, 1, gl)
    ensures forall a, b :: 0 <= a <= b <= |text| ==> (Hits(g, text, 1, gl, a, b) <==> Matches(g.sets, re, text[a..b]))
  {
    hide Compiled, Hits, WellFormed, Matches;
    forall a, b | 0 <= a <= b <= |text|
      ensures Hits(g, text, 1, gl, a, b) <==> Matches(g.sets, re, text[a..b])
    {
      HitIsMatch(g, re, text, gl, a, b);
    }
  }

  /** Prescreening: does text[start..stop] contain the must string? */
  method FindMustIn(must: Text, text: Text, start: nat, stop: nat) returns (found: bool)
    requires must != [] && start <= stop <= |text|
    ensures found <==> exists d :: start <= d && d + |must| <= stop && M.StandsAt(text, d, must)
  {
    var dp := start;
    while dp < stop
      invariant start <= dp <= stop
      invariant forall d :: start <= d < dp && d + |must| <= stop ==> !M.StandsAt(text, d, must)
    {
      if text[dp] == must[0] && stop - dp >= |must| && text[dp..dp + |must|] == must {
        assert M.StandsAt(text, dp, must);
        break;
      }
      dp := dp + 1;
    }
    found := dp != stop;
  }

  lemma StandsWithin(text: Text, j: nat, k: nat, i: nat, s: Text)
    requires j <= k <= |text| && M.StandsAt(text[j..k], i, s)
    ensures M.StandsAt(text, j + i, s)
  {
    var u := text[j..k];
    forall x | 0 <= x < |s|
      ensures text[j + i..j + i + |s|][x] == s[x]
    {
      assert u[i..i + |s|][x] == u[i + x] == text[j + i + x];
    }
  }

  /** Without the must string there is no match. */
  lemma NoMustNoMatch(g: Guts, re: Re, text: Text, start: nat, stop: nat)
    requires Compiled(g, re) && start <= stop <= |text| && g.must != []
    requires forall d :: start <= d && d + |g.must| <= stop ==> !M.StandsAt(text, d, g.must)
    ensures !MatchIn(g.sets, re, text, start, stop)
  {
    hide Matches, Code, Paired, Occurs;
    forall j, k | start <= j <= k <= stop
      ensures !Matches(g.sets, re, text[j..k])
    {
      if Matches(g.sets, re, text[j..k]) {
        M.MustIsSound(g.sets, re, g.must, text[j..k]);
        var i: nat :| M.StandsAt(text[j..k], i, g.must);
        StandsWithin(text, j, k, i, g.must);
      }
    }
  }

  /** Where? The first position from coldp on at which slow finds a match. */
  method FindStart(m: Match, ghost re: Re, stop: nat, gf: nat, gl: nat) returns (endp: nat)
    requires Ready(m) && gf == 1 && gl == |m.g.strip| - 1 && Holds(m.g, gf, re) && gl == gf + Len(re)
    requires m.beginp <= m.coldp <= stop <= m.endp <= |m.text|
    requires exists j, k :: m.coldp <= j <= k <= stop && Matches(m.g.sets, re, m.text[j..k])
    modifies Owned(m), m`coldp
    ensures Ready(m) && old(m.coldp) <= m.coldp <= endp <= stop
    ensures NoStart(m.g.sets, re, m.text, old(m.coldp), m.coldp, stop)
    ensures Matches(m.g.sets, re, m.text[m.coldp..endp])
    ensures forall k :: endp < k <= stop ==> !Matches(m.g.sets, re, m.text[m.coldp..k])
  {
    hide Ready, Matches, Longest, Holds, Len;
    ghost var j, k :| m.coldp <= j <= k <= stop && Matches(m.g.sets, re, m.text[j..k]);
    while true
      invariant Ready(m) && old(m.coldp) <= m.coldp <= j
      invariant NoStart(m.g.sets, re, m.text, old(m.coldp), m.coldp, stop)
      decreases j - m.coldp
    {
      LongestHolds(m.g.sets, re, m.text, m.coldp, stop);
      var e := SlowOver(m, m.coldp, stop, gf, gl, re);
      if e != -1 {
        endp := e;
        break;
      }
      m.coldp := m.coldp + 1;
    }
  }

  /** What the span found is, in the terms of Fast and FindStart. */
  lemma Report(g: Guts, re: Re, text: Text, gl: nat, start: nat, stop: nat, coldp: nat, p: nat, s: Span)
    requires Compiled(g, re) && start <= coldp <= p <= stop <= |text|
    requires gl == |g.strip| - 1 && Region(g, 1, gl)
    requires exists j :: coldp <= j <= p && Hits(g, text, 1, gl, j, p)
    requires NoHitBefore(g, text, 1, gl, start, p) && LastCold(g, text, 1, gl, start, coldp, p)
    requires coldp <= s.so <= s.eo <= stop && NoStart(g.sets, re, text, coldp, s.so, stop)
    requires Matches(g.sets, re, text[s.so..s.eo])
    requires forall k :: s.eo < k <= stop ==> !Matches(g.sets, re, text[s.so..k])
    ensures Reported(g, re, text, start, stop, s)
  {
    hide Compiled, Hits, WellFormed, Matches, Run;
    HitsAreMatches(g, re, text, gl);
    assert FirstEnd(g.sets, re, text, start, p) by {
      hide Cold, LastCold, NoStart;
      var j :| coldp <= j <= p && Hits(g, text, 1, gl, j, p);
      assert Matches(g.sets, re, text[j..p]);
    }
    forall q | start <= q <= p
      ensures Cold(g, text, 1, gl, start, q) <==> ColdAt(g, text, start, q)
    {
    }
    assert ReportedFrom(g, re, text, start, stop, s, coldp, p) by { hide FirstEnd, NoStart, Cold, ColdAt; }
  }

  /** The engine proper: whether, where, and what the groups matched. */
  method Find(g: Guts, ghost re: Re, large: bool, text: Text, start: nat, stop: nat, n: nat, eflags: Eflags)
      returns (hit: bool, whole: Span, spans: seq<Span>)
    requires Compiled(g, re) && (large || |g.strip| <= 32) && start <= stop <= |text|
    ensures 0 < |g.strip| - 1
    ensures hit <==> MatchIn(g.sets, re, text, start, stop)
    ensures hit && n > 0 ==> Reported(g, re, text, start, stop, whole) && 0 <= whole.so <= whole.eo <= |text|
    ensures hit && n > 1 ==> spans == Dissected(g.sets, re, text, whole.so, whole.eo, NoSpans(g.nsub + 1))
  {
    hide Compiled, Ready, WellFormed, Matches, Hits, Holds, Dissected, NoStart, LastCold, NoHitBefore, HitWithin, MatchIn, Reported, Len;
    CompiledHolds(g, re);
    CompiledAt(g, re);
    var gf, gl := g.firststate + 1, g.laststate;
    HitsAreMatches(g, re, text, gl);
    whole, spans := Span(-1, -1), [];
    var m := new Match(g, large, eflags, text, start, stop);
    ghost var p;
    hit, p := Fast(m, start, stop, gf, gl);
    SameHits(g, re, text, gl, start, stop);
    if !hit || n == 0 { return; }
    ghost var coldp := m.coldp;
    ghost var j :| coldp <= j <= p && Hits(g, text, gf, gl, j, p);
    assert Matches(g.sets, re, text[j..p]);
    var endp := FindStart(m, re, stop, gf, gl);
    whole := Span(m.coldp, endp);
    Report(g, re, text, gl, start, stop, coldp, p, whole);
    if n == 1 { return; }
    m.pmatch := NoSpans(g.nsub + 1);
    var dp := Dissect(m, m.coldp, endp, gf, gl, re);
    spans := m.pmatch;
  }

  lemma SameHits(g: Guts, re: Re, text: Text, gl: nat, start: nat, stop: nat)
    requires Compiled(g, re) && gl == |g.strip| - 1 && Region(g, 1, gl) && stop <= |text|
    ensures HitWithin(g, text, 1, gl, start, stop) <==> MatchIn(g.sets, re, text, start, stop)
  {
    hide Compiled, Hits, WellFormed, Matches;
    HitsAreMatches(g, re, text, gl);
    if HitWithin(g, text, 1, gl, start, stop) {
      var j, k :| start <= j <= k <= stop && Hits(g, text, 1, gl, j, k);
      assert Matches(g.sets, re, text[j..k]);
    }
    if MatchIn(g.sets, re, text, start, stop) {
      var j, k :| start <= j <= k <= stop && Matches(g.sets, re, text[j..k]);
      assert Hits(g, text, 1, gl, j, k);
    }
  }

  lemma CompiledAt(g: Guts, re: Re)
    requires Compiled(g, re)
    ensures g.firststate == 0 && g.laststate == |g.strip| - 1
  {
    hide Code, Paired, Occurs;
  }

  /** The actual matching engine, over either representation of sets of states. */
  method Matcher(g: Guts, ghost re: Re, large: bool, text: Text, nmatch: nat, pmatch: array<Span>, eflags: Eflags)
      returns (rc: Rc)
    requires Compiled(g, re) && (large || |g.strip| <= 32)
    requires nmatch <= pmatch.Length
    requires eflags.startend ==> pmatch.Length > 0 && 0 <= pmatch[0].so && pmatch[0].eo <= |text|
    modifies pmatch
    ensures 0 < |g.strip| - 1
    ensures Outcome(g, re, text, old(pmatch[..]), nmatch, eflags, rc, pmatch[..])
  {
    hide Compiled, Matches, MatchIn, Reported, Dissected;
    CompiledHolds(g, re);
    var n := if g.nosub then 0 else nmatch;
    var (start, stop) := Bounds(text, pmatch[..], eflags);
    if stop < start { return INVARG; }
    if g.must != [] {
      var found := FindMustIn(g.must, text, start, stop);
      if !found {
        NoMustNoMatch(g, re, text, start, stop);
        return NOMATCH;
      }
    }
    var hit, whole, spans := Find(g, re, large, text, start, stop, n, eflags);
    if !hit { return NOMATCH; }
    rc := OKAY;
    if n == 0 { return; }
    pmatch[0] := whole;
    for i := 1 to n
      invariant forall k :: 1 <= k < i ==> pmatch[k] == if k <= g.nsub then spans[k] else Span(-1, -1)
      invariant pmatch[0] == whole
      invariant forall k :: n <= k < pmatch.Length ==> pmatch[k] == old(pmatch[k])
    {
      pmatch[i] := if i <= g.nsub then spans[i] else Span(-1, -1);
    }
  }

  /** The interface: short strips run on words, long ones on bytes, and what is no compiled expression is refused. */
  method Regexec(preg: Preg, ghost re: Re, text: Text, nmatch: nat, pmatch: array<Span>, eflags: Eflags) returns (rc: Rc)
    requires (Intact(preg) ==> Compiled(preg.g, re)) && nmatch <= pmatch.Length
    requires eflags.startend ==> pmatch.Length > 0 && 0 <= pmatch[0].so && pmatch[0].eo <= |text|
    modifies pmatch
    ensures rc == BADPAT <==> !Intact(preg)
    ensures Intact(preg) ==> 0 < |preg.g.strip| - 1 && Outcome(preg.g, re, text, old(pmatch[..]), nmatch, eflags, rc, pmatch[..])
    ensures !Intact(preg) ==> pmatch[..] == old(pmatch[..])
  {
    if preg.magic != MAGIC1 || preg.g.magic != MAGIC2 { return BADPAT; }
    if preg.g.bad { return BADPAT; }
    var g := preg.g;
    rc := Matcher(g, re, |g.strip| > 32, text, nmatch, pmatch, eflags);
  }
}
