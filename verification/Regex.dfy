/**
  The two interfaces together: compiling a pattern, and executing what comes of it.
 */
module Regex {
  import opened Strip
  import opened Language
  import opened Pattern
  import opened Spelling
  import opened Grammar
  import opened Emit
  import opened Progress
  import opened Engine
  import opened Dissection
  import opened Execution
  import G = GroupNumbers
  import M = Must
  import C = Regcomp
  import U = Unambiguous

  /** g is the program for the pattern that t is a reading of. */
  ghost predicate Program(g: Guts, newline: bool, t: Tree) {
    Compiled(g, TreeRe(newline, t)) && Numbered(newline, g.sets, t) && Ordered(t, 0) && g.newline == newline && g.nsub == Groups(t)
  }

  /** The groups of a reading are numbered from 1. */
  lemma GroupsAreNumbered(newline: bool, t: Tree)
    requires Ordered(t, 0)
    ensures forall i: nat :: Paired(i, TreeRe(newline, t), false)
    ensures forall i: nat :: Occurs(i, TreeRe(newline, t)) ==> 1 <= i <= Groups(t)
  {
    hide Paired, Occurs, TreeRe, Ordered, Groups;
    forall i: nat
      ensures Paired(i, TreeRe(newline, t), false)
      ensures Occurs(i, TreeRe(newline, t)) ==> 1 <= i <= Groups(t)
    {
      G.TreeNumbers(newline, i, t, 0);
    }
  }

  /** A reading, if there is one. */
  ghost function AReading(pattern: Text): (t: Tree)
    ensures U.WellFormed(pattern) ==> U.Reads(t, pattern)
  {
    if U.WellFormed(pattern) then
      var t :| U.Reads(t, pattern);
      t
    else Only(Done)
  }

  /**
    The interface of the compiler.  The patterns compiled are those with a reading, all others are refused;
    and the program is the code of the reading, between two end marks.
   */
  method Regcomp(pattern: Text, newline: bool, nosub: bool) returns (error: Err, preg: Preg, ghost t: Tree)
    ensures error == OK <==> U.WellFormed(pattern)
    ensures error == OK ==> U.Reads(t, pattern) && Program(preg.g, newline, t) && preg.g.nosub == nosub && preg.nsub == Groups(t)
    ensures Intact(preg) <==> error == OK
  {
    hide TreeRe, Numbered, Ordered, Groups, SpellTree, TreeOk, TreeDone, Program, Code, Parse.Valid, Parse.Rest, M.RunAt, M.Events;
    var p := new Parse(pattern, newline);
    ghost var e := AReading(pattern);
    p.Emit(OEND, 0);
    var firststate := |p.strip| - 1;
    ghost var was := C.Now(p);
    assert SpellTree(e) + [] == SpellTree(e);
    t := C.PEre(p, C.OUT, e, []);
    ghost var now := C.Now(p);
    p.Emit(OEND, 0);
    error := p.error;
    if error != OK {
      preg := Preg(0, 0, Guts([], [], newline, nosub, 0, 0, 0, 0, 0, [], false, 0));
      return;
    }
    StripIs(newline, was, now, t);
    var g := Guts(p.strip, p.store.Live(), newline, nosub, firststate, |p.strip| - 1, 0, 0, p.nsub, [], false, 0);
    var bad, must := M.FindMust(p.strip, TreeRe(newline, t));
    g := g.(must := must, bad := bad, magic := MAGIC2);
    preg := Preg(MAGIC1, g.nsub, g);
    IsProgram(g, newline, t);
  }

  lemma IsProgram(g: Guts, newline: bool, t: Tree)
    requires g.strip == [Sop(OEND, 0)] + Code(TreeRe(newline, t)) + [Sop(OEND, 0)]
    requires g.firststate == 0 && g.laststate == |g.strip| - 1 && g.newline == newline
    requires exists i: nat :: M.RunAt(M.Events(TreeRe(newline, t)), i, g.must)
    requires Ordered(t, 0) && g.nsub == Groups(t) && Numbered(newline, g.sets, t)
    ensures Program(g, newline, t)
  {
    hide TreeRe, Numbered, Ordered, Groups, Code, Paired, Occurs, M.RunAt, M.Events;
    GroupsAreNumbered(newline, t);
  }

  lemma StripIs(newline: bool, was: Place, now: Place, t: Tree)
    requires TreeDone(newline, was, now, t) && C.Ends(now.rest, C.OUT)
    requires was.strip == [Sop(OEND, 0)] && was.nsub == 0
    ensures U.Reads(t, was.rest) && Numbered(newline, now.sets, t) && Ordered(t, 0) && now.nsub == Groups(t)
    ensures now.strip == [Sop(OEND, 0)] + Code(TreeRe(newline, t))
  {
    hide TreeRe, Numbered, Ordered, Groups, SpellTree, TreeOk, Code;
    assert now.rest == [];
    assert SpellTree(t) + [] == SpellTree(t);
  }

  // What a caller can rely on, in terms of the pattern alone

  lemma ProgramMeans(g: Guts, newline: bool, t: Tree, pattern: Text, w: Text)
    requires U.Reads(t, pattern) && Program(g, newline, t)
    ensures Matches(g.sets, TreeRe(newline, t), w) <==> U.Means(newline, pattern, w)
  {
    hide Compiled, Numbered, Ordered, Groups, U.Reads, U.Means, TreeMeans, Matches, TreeRe;
    TreeMatches(newline, g.sets, t, w);
    U.MeansByReading(newline, t, pattern, w);
  }

  /** Some stretch of the text between start and stop is one of those the pattern means. */
  ghost predicate FoundIn(newline: bool, pattern: Text, text: Text, start: nat, stop: nat)
    requires stop <= |text|
  {
    exists j, k :: start <= j <= k <= stop && U.Means(newline, pattern, text[j..k])
  }

  /**
    Executing a compiled pattern succeeds just when some stretch of the text is one the pattern means, and
    reports such a stretch, none longer beginning where it does.
   */
  lemma OutcomeMeans(g: Guts, newline: bool, t: Tree, pattern: Text, text: Text, before: seq<Span>, nmatch: nat, eflags: Eflags,
                     rc: Rc, after: seq<Span>)
    requires U.Reads(t, pattern) && Program(g, newline, t) && 0 < |g.strip| - 1
    requires eflags.startend ==> |before| > 0 && 0 <= before[0].so && before[0].eo <= |text|
    requires nmatch <= |before| && Outcome(g, TreeRe(newline, t), text, before, nmatch, eflags, rc, after)
    ensures var (start, stop) := Bounds(text, before, eflags);
      && (rc == OKAY <==> start <= stop && FoundIn(newline, pattern, text, start, stop))
      && (rc == OKAY && !g.nosub && nmatch > 0 ==> |after| > 0 && LongestFound(newline, pattern, text, start, stop, after[0]))
  {
    hide Program, U.Reads, U.Means, Matches, TreeRe, Dissected, ColdAt, FirstEnd, NoStart;
    var (start, stop) := Bounds(text, before, eflags);
    forall w
      ensures Matches(g.sets, TreeRe(newline, t), w) <==> U.Means(newline, pattern, w)
    {
      ProgramMeans(g, newline, t, pattern, w);
    }
    if start <= stop {
      assert MatchIn(g.sets, TreeRe(newline, t), text, start, stop) <==> FoundIn(newline, pattern, text, start, stop);
    }
    if rc == OKAY && !g.nosub && nmatch > 0 {
      var c: nat, p: nat :| ReportedFrom(g, TreeRe(newline, t), text, start, stop, after[0], c, p);
    }
  }

  /**
    Where is looked: with REG_STARTEND from the first element's start to its end, which must not be before it;
    otherwise from the beginning to the first NUL.
   */
  lemma WhereLooked(g: Guts, newline: bool, t: Tree, pattern: Text, text: Text, before: seq<Span>, nmatch: nat, eflags: Eflags,
                    rc: Rc, after: seq<Span>, first: nat)
    requires U.Reads(t, pattern) && Program(g, newline, t) && 0 < |g.strip| - 1
    requires eflags.startend ==> |before| > 0 && 0 <= before[0].so && before[0].eo <= |text|
    requires nmatch <= |before| && Outcome(g, TreeRe(newline, t), text, before, nmatch, eflags, rc, after)
    requires first <= |text| && (first < |text| ==> text[first] == '\0') && forall i :: 0 <= i < first ==> text[i] != '\0'
    ensures eflags.startend && before[0].so > before[0].eo <==> rc == INVARG
    ensures eflags.startend && before[0].so <= before[0].eo ==>
      (rc == OKAY <==> exists j, k :: before[0].so <= j <= k <= before[0].eo && U.Means(newline, pattern, text[j..k]))
    ensures !eflags.startend ==> (rc == OKAY <==> exists j, k :: 0 <= j <= k <= first && U.Means(newline, pattern, text[j..k]))
  {
    hide Program, U.Reads, U.Means, Matches, TreeRe, GroupsReported, Reported, MatchIn;
    OutcomeMeans(g, newline, t, pattern, text, before, nmatch, eflags, rc, after);
  }

  ghost predicate LongestFound(newline: bool, pattern: Text, text: Text, start: nat, stop: nat, s: Span)
    requires stop <= |text|
  {
    && start <= s.so <= s.eo <= stop && U.Means(newline, pattern, text[s.so..s.eo])
    && forall k :: s.eo < k <= stop ==> !U.Means(newline, pattern, text[s.so..k])
  }

  /** Compiling and executing, one after the other. */
  method CompileAndExecute(pattern: Text, newline: bool, text: Text) returns (error: Err, found: bool, whole: Span)
    ensures error == OK <==> U.WellFormed(pattern)
    ensures error == OK ==> (found <==> FoundIn(newline, pattern, text, 0, StrLen(text)))
    ensures error == OK && found ==> LongestFound(newline, pattern, text, 0, StrLen(text), whole)
  {
    hide U.WellFormed, U.Reads, Program, Outcome, FoundIn, LongestFound, TreeRe, Bounds;
    var preg;
    ghost var t;
    found, whole := false, Span(-1, -1);
    error, preg, t := Regcomp(pattern, newline, false);
    if error != OK { return; }
    var pmatch := new Span[1](i => Span(-1, -1));
    var eflags := Eflags(false, false, false);
    var g := preg.g;
    ProgramCompiled(g, newline, t);
    ghost var before := pmatch[..];
    var rc := Regexec(preg, TreeRe(newline, t), text, 1, pmatch, eflags);
    WholeText(text, before);
    OutcomeMeans(g, newline, t, pattern, text, before, 1, eflags, rc, pmatch[..]);
    found, whole := rc == OKAY, pmatch[0];
  }

  lemma ProgramCompiled(g: Guts, newline: bool, t: Tree)
    requires Program(g, newline, t)
    ensures Compiled(g, TreeRe(newline, t))
  {
    hide Compiled, Numbered, Ordered, Groups;
  }

  lemma WholeText(text: Text, pm: seq<Span>)
    ensures Bounds(text, pm, Eflags(false, false, false)) == (0, StrLen(text))
  {
  }
}
