/**
  The must string: the longest run of literal characters every match has to contain, found by one scan
  of the strip.
 */
module Must {
  import opened Strip
  import opened Language
  import opened Automaton

  /** What a scan for mandatory characters sees: a character that must be there, or a gap. */
  datatype Event = Plain(c: Ch) | Gap

  function Events(re: Re): seq<Event> {
    match re
    case Nil => []
    case Cons(h, t) => NodeEvents(h) + Events(t)
  }

  function NodeEvents(n: Node): seq<Event> {
    match n
    case Lit(c) => [Plain(c)]
    case Dot => [Gap]
    case Set(_) => [Gap]
    case Open(_) => []
    case Shut(_) => []
    case Loop(b) => Events(b) + [Gap]
    case Maybe(_) => [Gap, Gap]
    case Choice(_, _) => [Gap, Gap]
  }

  /** w has the plain characters of ev, in order and side by side except where there is a gap. */
  ghost predicate Fits(ev: seq<Event>, w: Text)
    decreases |ev|
  {
    if ev == [] then w == []
    else match ev[0]
      case Plain(c) => w != [] && w[0] == c && Fits(ev[1..], w[1..])
      case Gap => exists i :: 0 <= i <= |w| && Fits(ev[1..], w[i..])
  }

  lemma {:induction false} FitsAppend(a: seq<Event>, b: seq<Event>, u: Text, v: Text)
    requires Fits(a, u) && Fits(b, v)
    ensures Fits(a + b, u + v)
    decreases |a|
  {
    if a == [] {
      assert a + b == b && u + v == v;
    } else {
      assert (a + b)[1..] == a[1..] + b;
      match a[0]
      case Plain(c) =>
        FitsAppend(a[1..], b, u[1..], v);
        assert (u + v)[1..] == u[1..] + v;
      case Gap =>
        var i :| 0 <= i <= |u| && Fits(a[1..], u[i..]);
        FitsAppend(a[1..], b, u[i..], v);
        assert (u + v)[i..] == u[i..] + v;
    }
  }

  lemma GapFits(w: Text)
    ensures Fits([Gap], w) && Fits([Gap, Gap], w)
  {
    assert w[|w|..] == [] && Fits([], w[|w|..]);
    assert [Gap][1..] == [];
    assert [Gap, Gap][1..] == [Gap] && w[0..] == w && Fits([Gap], w[0..]);
  }

  /** Every text of the language fits the events of the expression. */
  lemma {:induction false} MatchFits(sets: Sets, re: Re, w: Text)
    requires Matches(sets, re, w)
    ensures Fits(Events(re), w)
    decreases re
  {
    hide Matches, MatchesNode, NodeEvents;
    match re
    case Nil => MatchesNil(sets, w);
    case Cons(h, t) =>
      var i := MatchesUncons(sets, h, t, w);
      NodeFits(sets, h, w[..i]);
      MatchFits(sets, t, w[i..]);
      FitsAppend(NodeEvents(h), Events(t), w[..i], w[i..]);
      assert w[..i] + w[i..] == w;
  }

  lemma {:induction false} NodeFits(sets: Sets, n: Node, w: Text)
    requires MatchesNode(sets, n, w)
    ensures Fits(NodeEvents(n), w)
    decreases n, 1
  {
    hide Matches, Events, Power, Fits;
    GapFits(w);
    match n
    case Lit(c) => PlainFits(c);
    case Open(_) => NothingFits();
    case Shut(_) => NothingFits();
    case Loop(b) => LoopFits(sets, b, w);
    case _ =>
  }

  lemma PlainFits(c: Ch)
    ensures Fits([Plain(c)], [c])
  {
    assert [Plain(c)][1..] == [] && [c][1..] == [];
  }

  lemma NothingFits()
    ensures Fits([], [])
  {
  }

  lemma {:induction false} LoopFits(sets: Sets, b: Re, w: Text)
    requires MatchesNode(sets, Loop(b), w)
    ensures Fits(Events(b) + [Gap], w)
    decreases Loop(b), 0
  {
    hide Matches, Events, Fits;
    var k: nat :| k >= 1 && Power(sets, b, k, w);
    var i := PowerSplit(sets, b, 1, k - 1, w);
    PowerOne(sets, b, w[..i]);
    MatchFits(sets, b, w[..i]);
    GapFits(w[i..]);
    FitsAppend(Events(b), [Gap], w[..i], w[i..]);
    assert w[..i] + w[i..] == w;
  }

  /** From event i on, the characters of run, one after the other. */
  ghost predicate RunAt(ev: seq<Event>, i: nat, run: Text) {
    i + |run| <= |ev| && forall k :: 0 <= k < |run| ==> ev[i + k] == Plain(run[k])
  }

  ghost predicate Contains(w: Text, s: Text) {
    exists i: nat :: StandsAt(w, i, s)
  }

  predicate StandsAt(w: Text, i: nat, s: Text) {
    i + |s| <= |w| && w[i..i + |s|] == s
  }

  /** A run of the events is in every text that fits them. */
  lemma {:induction false} RunContained(ev: seq<Event>, i: nat, run: Text, w: Text)
    requires RunAt(ev, i, run) && Fits(ev, w)
    ensures Contains(w, run)
    decreases |ev|
  {
    if i == 0 {
      RunPrefix(ev, run, w);
      assert StandsAt(w, 0, run);
    } else {
      assert RunAt(ev[1..], i - 1, run);
      var d: nat := 1;
      if ev[0].Gap? {
        d :| 0 <= d <= |w| && Fits(ev[1..], w[d..]);
      }
      RunContained(ev[1..], i - 1, run, w[d..]);
      var j: nat :| StandsAt(w[d..], j, run);
      assert w[d + j..d + j + |run|] == w[d..][j..j + |run|];
      assert StandsAt(w, d + j, run);
    }
  }

  lemma {:induction false} RunPrefix(ev: seq<Event>, run: Text, w: Text)
    requires RunAt(ev, 0, run) && Fits(ev, w)
    ensures |run| <= |w| && w[..|run|] == run
    decreases |run|
  {
    if run != [] {
      assert ev[0 + 0] == Plain(run[0]);
      assert forall k :: 0 <= k < |run| - 1 ==> ev[1..][k] == ev[0 + (k + 1)];
      assert RunAt(ev[1..], 0, run[1..]);
      RunPrefix(ev[1..], run[1..], w[1..]);
      assert w[..|run|] == [w[0]] + w[1..][..|run[1..]|];
    }
  }

  // The scan

  /** The events of the strip from pc on, as the scan meets them. */
  ghost function Scan(strip: seq<Sop>, pc: nat): seq<Event>
    decreases |strip| - pc
  {
    if pc >= |strip| then []
    else
      var s := strip[pc];
      match s.op
      case OEND => []
      case OCHAR => if s.opnd < 256 then [Plain(s.opnd as char)] + Scan(strip, pc + 1) else []
      case OPLUS_ => Scan(strip, pc + 1)
      case OLPAREN => Scan(strip, pc + 1)
      case ORPAREN => Scan(strip, pc + 1)
      case OQUEST_ => [Gap] + (if s.opnd > 0 then Scan(strip, pc + s.opnd) else [])
      case OCH_ => [Gap] + (if s.opnd > 0 && pc < EndOfChoice(strip, pc + s.opnd) then Scan(strip, EndOfChoice(strip, pc + s.opnd)) else [])
      case _ => [Gap] + Scan(strip, pc + 1)
  }

  lemma {:induction false} ScanCode(strip: seq<Sop>, lo: nat, re: Re)
    requires At(strip, lo, re)
    ensures Scan(strip, lo) == Events(re) + Scan(strip, lo + Len(re))
    decreases re
  {
    hide AtNode, NodeLen, NodeEvents, Scan;
    match re
    case Nil =>
    case Cons(h, t) =>
      ScanNode(strip, lo, h);
      ScanCode(strip, lo + NodeLen(h), t);
      assert NodeEvents(h) + (Events(t) + Scan(strip, lo + Len(re))) == Events(re) + Scan(strip, lo + Len(re));
  }

  lemma {:induction false} ScanNode(strip: seq<Sop>, lo: nat, n: Node)
    requires AtNode(strip, lo, n)
    ensures Scan(strip, lo) == NodeEvents(n) + Scan(strip, lo + NodeLen(n))
    decreases n
  {
    hide At, AtAlts, Len, NodeLen, Events, EndOfChoice, Scan;
    Lengths(n);
    ScanOne(strip, lo);
    var rest := Scan(strip, lo + NodeLen(n));
    match n
    case Loop(b) =>
      ScanCode(strip, lo + 1, b);
      ScanOne(strip, lo + 1 + Len(b));
      assert Events(b) + ([Gap] + rest) == (Events(b) + [Gap]) + rest;
    case Maybe(b) =>
      ScanOne(strip, lo + 1 + Len(b));
    case Choice(f, o) =>
      EndOfAlts(strip, lo + 2 + Len(f), o);
      ScanOne(strip, lo + NodeLen(n) - 1);
    case _ =>
  }

  /** One operator of a scan. */
  lemma ScanOne(strip: seq<Sop>, pc: nat)
    requires pc < |strip|
    ensures var s := strip[pc]; var r := Scan(strip, pc);
      match s.op
      case OEND => r == []
      case OCHAR => s.opnd < 256 ==> r == [Plain(s.opnd as char)] + Scan(strip, pc + 1)
      case OPLUS_ => r == Scan(strip, pc + 1)
      case OLPAREN => r == Scan(strip, pc + 1)
      case ORPAREN => r == Scan(strip, pc + 1)
      case OQUEST_ => s.opnd > 0 ==> r == [Gap] + Scan(strip, pc + s.opnd)
      case OCH_ => s.opnd > 0 && pc < EndOfChoice(strip, pc + s.opnd) ==> r == [Gap] + Scan(strip, EndOfChoice(strip, pc + s.opnd))
      case _ => r == [Gap] + Scan(strip, pc + 1)
  {
    hide EndOfChoice;
  }

  /** The characters of the OCHARs in strip[a..b]. */
  ghost function Chars(strip: seq<Sop>, a: nat, b: nat): Text
    requires a <= b <= |strip|
    decreases b
  {
    if a == b then []
    else Chars(strip, a, b - 1) + (if strip[b - 1].op == OCHAR && strip[b - 1].opnd < 256 then [strip[b - 1].opnd as char] else [])
  }

  lemma {:induction false} CharsPrefix(strip: seq<Sop>, a: nat, b: nat, c: nat)
    requires a <= b <= c <= |strip|
    ensures Chars(strip, a, b) <= Chars(strip, a, c)
    decreases c
  {
    if b < c { CharsPrefix(strip, a, b, c - 1); }
  }

  /** Where a scan may stand: literals fit a byte, and what is skipped ends in its mark. */
  ghost predicate Scannable(strip: seq<Sop>, pc: nat, hi: nat)
    requires pc < hi <= |strip|
  {
    var s := strip[pc];
    && s.op != OEND
    && (s.op == OCHAR ==> s.opnd < 256)
    && (s.op == OQUEST_ ==> 0 < s.opnd && pc + s.opnd < hi && strip[pc + s.opnd].op == O_QUEST)
    && (s.op == OCH_ ==> 0 < s.opnd && ChainTo(strip, pc + s.opnd, hi) && strip[pc + s.opnd].op == OOR2)
  }

  lemma {:induction false} CodeScannable(strip: seq<Sop>, lo: nat, hi: nat, re: Re)
    requires At(strip, lo, re) && lo + Len(re) <= hi <= |strip|
    ensures forall pc :: lo <= pc < lo + Len(re) ==> Scannable(strip, pc, hi)
    decreases re
  {
    hide AtNode, NodeLen, Scannable;
    match re
    case Nil =>
    case Cons(h, t) =>
      NodeScannable(strip, lo, hi, h);
      CodeScannable(strip, lo + NodeLen(h), hi, t);
  }

  lemma {:induction false} NodeScannable(strip: seq<Sop>, lo: nat, hi: nat, n: Node)
    requires AtNode(strip, lo, n) && lo + NodeLen(n) <= hi <= |strip|
    ensures forall pc :: lo <= pc < lo + NodeLen(n) ==> Scannable(strip, pc, hi)
    decreases n
  {
    hide At, AtAlts, Len, NodeLen, AltsLen, ChainTo, EndOfChoice;
    Lengths(n);
    match n
    case Loop(b) => CodeScannable(strip, lo + 1, hi, b);
    case Maybe(b) => CodeScannable(strip, lo + 1, hi, b);
    case Choice(f, o) =>
      CodeScannable(strip, lo + 1, hi, f);
      var alts := lo + 2 + Len(f);
      AltsScannable(strip, alts, hi, o);
      AltsWellFormed(strip, alts, alts, lo + NodeLen(n), o);
      ChainWiden(strip, alts, lo + NodeLen(n), hi);
      AltsStart(strip, alts, o);
    case _ =>
  }

  lemma AltsStart(strip: seq<Sop>, lo: nat, a: Alts)
    requires AtAlts(strip, lo, a)
    ensures strip[lo].op == OOR2
  {
    hide At, Len, AltsLen;
  }

  lemma {:induction false} AltsScannable(strip: seq<Sop>, lo: nat, hi: nat, a: Alts)
    requires AtAlts(strip, lo, a) && lo + AltsLen(a) <= hi <= |strip|
    ensures forall pc :: lo <= pc < lo + AltsLen(a) ==> Scannable(strip, pc, hi)
    decreases a
  {
    hide At, Len, AltsLen, ChainTo;
    AltsLengths(a);
    CodeScannable(strip, lo + 1, hi, a.branch);
    if a.More? { AltsScannable(strip, lo + 2 + Len(a.branch), hi, a.others); }
  }

  // Runs among the events met so far

  /** The run that done ends in, and how it was met: by OCHARs from newstart on. */
  ghost predicate Tail(strip: seq<Sop>, done: seq<Event>, newstart: nat, newlen: nat, scan: nat) {
    && newlen <= |done|
    && (newlen > 0 ==>
          && newstart <= scan <= |strip|
          && |Chars(strip, newstart, scan)| == newlen && RunAt(done, |done| - newlen, Chars(strip, newstart, scan)))
    && (newlen < |done| ==> done[|done| - newlen - 1].Gap?)
  }

  /** The longest run that has ended so far. */
  ghost predicate Best(strip: seq<Sop>, done: seq<Event>, start: nat, mlen: nat, end: nat) {
    mlen > 0 ==>
      && start <= end <= |strip| && |Chars(strip, start, end)| == mlen
      && exists i: nat :: RunAt(done, i, Chars(strip, start, end))
  }

  /** No run of done is longer than n. */
  ghost predicate NoLonger(done: seq<Event>, n: nat) {
    forall i: nat, run :: RunAt(done, i, run) ==> |run| <= n
  }

  lemma RunHasNoGap(ev: seq<Event>, i: nat, run: Text, p: int)
    requires RunAt(ev, i, run)
    ensures i <= p < i + |run| ==> ev[p].Plain?
  {
    if i <= p < i + |run| { assert ev[i + (p - i)] == Plain(run[p - i]); }
  }

  lemma MeetPlain(strip: seq<Sop>, done: seq<Event>, newstart: nat, newlen: nat, scan: nat, n: nat)
    requires scan < |strip| && strip[scan].op == OCHAR && strip[scan].opnd < 256
    requires Tail(strip, done, newstart, newlen, scan) && NoLonger(done, n) && newlen <= n
    ensures var c := strip[scan].opnd as char;
      && Tail(strip, done + [Plain(c)], if newlen == 0 then scan else newstart, newlen + 1, scan + 1)
      && NoLonger(done + [Plain(c)], if newlen + 1 > n then newlen + 1 else n)
  {
    var c := strip[scan].opnd as char;
    var more := done + [Plain(c)];
    assert Chars(strip, scan, scan) == [];
    forall i: nat, run | RunAt(more, i, run)
      ensures |run| <= if newlen + 1 > n then newlen + 1 else n
    {
      if i + |run| <= |done| { assert RunAt(done, i, run); }
      RunHasNoGap(more, i, run, |done| - newlen - 1);
    }
  }

  lemma MeetGap(strip: seq<Sop>, done: seq<Event>, newstart: nat, newlen: nat, scan: nat, scan': nat,
                start: nat, mlen: nat, end: nat)
    requires Tail(strip, done, newstart, newlen, scan) && Best(strip, done, start, mlen, end)
    requires NoLonger(done, if newlen > mlen then newlen else mlen)
    ensures Tail(strip, done + [Gap], newstart, 0, scan')
    ensures Best(strip, done + [Gap], if newlen > mlen then newstart else start, if newlen > mlen then newlen else mlen,
              if newlen > mlen then scan else end)
    ensures NoLonger(done + [Gap], if newlen > mlen then newlen else mlen)
  {
    var more := done + [Gap];
    if newlen > mlen {
      assert RunAt(more, |done| - newlen, Chars(strip, newstart, scan));
    } else if mlen > 0 {
      var i: nat :| RunAt(done, i, Chars(strip, start, end));
      assert RunAt(more, i, Chars(strip, start, end));
    }
    forall i: nat, run | RunAt(more, i, run)
      ensures |run| <= if newlen > mlen then newlen else mlen
    {
      RunHasNoGap(more, i, run, |done|);
      if i + |run| <= |done| { assert RunAt(done, i, run); }
    }
  }

  lemma MeetPlainBest(strip: seq<Sop>, done: seq<Event>, e: Event, start: nat, mlen: nat, end: nat)
    requires Best(strip, done, start, mlen, end)
    ensures Best(strip, done + [e], start, mlen, end)
  {
    if mlen > 0 {
      var i: nat :| RunAt(done, i, Chars(strip, start, end));
      assert RunAt(done + [e], i, Chars(strip, start, end));
    }
  }

  /** Skip to the mark that ends an optional part. */
  method Skip(strip: seq<Sop>, from: nat, ghost hi: nat) returns (bad: bool, scan: nat)
    requires from < hi <= |strip| && Scannable(strip, from, hi) && strip[from].op in {OQUEST_, OCH_}
    ensures !bad && from < scan < hi && strip[scan].op in {O_QUEST, O_CH}
    ensures Scan(strip, from) == [Gap] + Scan(strip, scan)
  {
    hide Scan;
    ScanOne(strip, from);
    scan := from + strip[from].opnd;
    bad := false;
    if strip[from].op == OCH_ { ChainEnd(strip, scan, hi); }
    while strip[scan].op != O_QUEST && strip[scan].op != O_CH
      invariant from < scan < hi && !bad
      invariant strip[from].op == OCH_ ==> ChainTo(strip, scan, hi)
      invariant strip[from].op == OCH_ ==> EndOfChoice(strip, scan) == EndOfChoice(strip, from + strip[from].opnd)
      invariant strip[from].op == OQUEST_ ==> scan == from + strip[from].opnd
      decreases hi - scan
    {
      if strip[scan].op != OOR2 { bad := true; return; }
      scan := scan + strip[scan].opnd;
    }
  }

  /** The longest run of characters that every match must contain. */
  method FindMust(strip: seq<Sop>, ghost re: Re) returns (bad: bool, must: Text)
    requires strip == [Sop(OEND, 0)] + Code(re) + [Sop(OEND, 0)]
    ensures !bad
    ensures exists i: nat :: RunAt(Events(re), i, must)
    ensures NoLonger(Events(re), |must|)
  {
    hide Scan, Tail, Best, NoLonger, Scannable, RunAt, Len, At, Events, Chars, Code;
    ghost var hi := 1 + Len(re);
    WholeScan(strip, re);
    var newstart, newlen, start, mlen, scan: nat := 0, 0, 0, 0, 1;
    ghost var done, end := [], 0;
    bad, must := false, [];
    NothingMet(strip);
    while true
      invariant 1 <= scan <= hi && !bad
      invariant (mlen > 0 ==> 1 <= start && end <= hi) && (newlen > 0 ==> 1 <= newstart)
      invariant Events(re) == done + Scan(strip, scan)
      invariant Tail(strip, done, newstart, newlen, scan)
      invariant Best(strip, done, start, mlen, end)
      invariant NoLonger(done, if newlen > mlen then newlen else mlen)
      decreases hi - scan
    {
      ScanOne(strip, scan);
      var s := strip[scan];
      if s.op == OEND {
        if newlen > mlen {
          MeetEnd(strip, done, newstart, newlen, scan);
          start, mlen, end := newstart, newlen, scan;
        }
        assert done + [] == done;
        break;
      }
      if s.op == OCHAR {
        MeetPlain(strip, done, newstart, newlen, scan, if newlen > mlen then newlen else mlen);
        MeetPlainBest(strip, done, Plain(s.opnd as char), start, mlen, end);
        if newlen == 0 { newstart := scan; }
        newlen := newlen + 1;
        assert done + ([Plain(s.opnd as char)] + Scan(strip, scan + 1)) == (done + [Plain(s.opnd as char)]) + Scan(strip, scan + 1);
        done := done + [Plain(s.opnd as char)];
        scan := scan + 1;
      } else if s.op == OPLUS_ || s.op == OLPAREN || s.op == ORPAREN {
        MeetNothing(strip, done, newstart, newlen, scan);
        scan := scan + 1;
      } else {
        ghost var was := scan;
        if s.op == OQUEST_ || s.op == OCH_ {
          bad, scan := Skip(strip, scan, hi);
        } else {
          scan := scan + 1;
        }
        MeetGap(strip, done, newstart, newlen, was, scan, start, mlen, end);
        assert done + ([Gap] + Scan(strip, scan)) == (done + [Gap]) + Scan(strip, scan);
        done := done + [Gap];
        if newlen > mlen {
          start, mlen, end := newstart, newlen, was;
        }
        newlen := 0;
      }
    }
    if mlen == 0 {
      EmptyRun(Events(re));
      return;
    }
    BestIs(strip, Events(re), start, mlen, end);
    must := Collect(strip, start, mlen, end);
  }

  /** Turn the run into a character string. */
  method Collect(strip: seq<Sop>, start: nat, mlen: nat, ghost end: nat) returns (must: Text)
    requires start <= end <= |strip| && |Chars(strip, start, end)| == mlen
    requires forall pc :: start <= pc < end && strip[pc].op == OCHAR ==> strip[pc].opnd < 256
    ensures must == Chars(strip, start, end)
  {
    must := [];
    var i, scan := mlen, start;
    while i > 0
      invariant start <= scan <= end && must == Chars(strip, start, scan) && |must| + i == mlen
      decreases i
    {
      CharsShort(strip, start, scan, end);
      while strip[scan].op != OCHAR
        invariant start <= scan < end && must == Chars(strip, start, scan)
        decreases end - scan
      {
        scan := scan + 1;
        CharsShort(strip, start, scan, end);
      }
      must := must + [strip[scan].opnd as char];
      scan := scan + 1;
      i := i - 1;
    }
    CharsPrefix(strip, start, scan, end);
  }

  lemma CharsShort(strip: seq<Sop>, a: nat, b: nat, c: nat)
    requires a <= b <= c <= |strip|
    ensures |Chars(strip, a, b)| < |Chars(strip, a, c)| ==> b < c
  {
  }

  lemma WholeScan(strip: seq<Sop>, re: Re)
    requires strip == [Sop(OEND, 0)] + Code(re) + [Sop(OEND, 0)]
    ensures Scan(strip, 1) == Events(re)
    ensures |strip| >= 2 && strip[|strip| - 1].op == OEND
    ensures forall pc :: 1 <= pc < |strip| - 1 ==> Scannable(strip, pc, 1 + Len(re)) && (strip[pc].op == OCHAR ==> strip[pc].opnd < 256)
    ensures |strip| == Len(re) + 2
  {
    hide Code, At, Events;
    assert strip[1..1 + Len(re)] == Code(re);
    CodeIsAt(strip, 1, re);
    ScanCode(strip, 1, re);
    CodeScannable(strip, 1, 1 + Len(re), re);
    assert Events(re) + [] == Events(re);
  }

  lemma NothingMet(strip: seq<Sop>)
    ensures Tail(strip, [], 0, 0, 1) && Best(strip, [], 0, 0, 0) && NoLonger([], 0)
    ensures forall ev: seq<Event> :: [] + ev == ev
  {
    forall i: nat, run | RunAt([], i, run)
      ensures |run| <= 0
    {
    }
  }

  lemma MeetNothing(strip: seq<Sop>, done: seq<Event>, newstart: nat, newlen: nat, scan: nat)
    requires scan < |strip| && strip[scan].op != OCHAR && Tail(strip, done, newstart, newlen, scan)
    ensures Tail(strip, done, newstart, newlen, scan + 1)
  {
  }

  lemma MeetEnd(strip: seq<Sop>, done: seq<Event>, newstart: nat, newlen: nat, scan: nat)
    requires newlen > 0 && Tail(strip, done, newstart, newlen, scan)
    ensures Best(strip, done, newstart, newlen, scan)
  {
  }

  lemma EmptyRun(ev: seq<Event>)
    ensures exists i: nat :: RunAt(ev, i, [])
  {
    assert RunAt(ev, 0, []);
  }

  lemma BestIs(strip: seq<Sop>, ev: seq<Event>, start: nat, mlen: nat, end: nat)
    requires mlen > 0 && Best(strip, ev, start, mlen, end)
    ensures start <= end <= |strip| && |Chars(strip, start, end)| == mlen
    ensures exists i: nat :: RunAt(ev, i, Chars(strip, start, end))
  {
  }

  /** No text of the language is without the must string. */
  lemma MustIsSound(sets: Sets, re: Re, must: Text, w: Text)
    requires exists i: nat :: RunAt(Events(re), i, must)
    requires Matches(sets, re, w)
    ensures Contains(w, must)
  {
    hide Matches, Events;
    var i: nat :| RunAt(Events(re), i, must);
    MatchFits(sets, re, w);
    RunContained(Events(re), i, must, w);
  }
}
