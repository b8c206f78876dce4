/**
  What files with conditionals come to, by the lines they consist of: include guards, sections that test whether a
  name is defined, and sections with any number of further conditions.
 */
module ConditionalLaws {
  import opened Symbols
  import opened Conditionals

  predicate PlainLine(line: Line) {
    !Begins(line) && !Ends(line)
  }

  predicate AllPlain(lines: seq<Line>) {
    forall i :: 0 <= i < |lines| ==> PlainLine(lines[i])
  }

  /** No line defines or undefines the name. */
  predicate Untouched(lines: seq<Line>, name: string) {
    forall i :: 0 <= i < |lines| ==>
      (lines[i].Define? ==> lines[i].name != name) && (lines[i].Undef? ==> lines[i].name != name)
  }

  // Groups of plain lines

  function GroupOf(lines: seq<Line>): Group {
    if lines == [] then Nothing else Item(Part.Plain(lines[0]), GroupOf(lines[1..]))
  }

  /** Plain lines are acted on in order; names they do not touch keep their meanings. */
  lemma {:induction false} GroupRuns(lines: seq<Line>, s: State, names: set<string>)
    requires AllPlain(lines) && forall n :: n in names ==> Untouched(lines, n)
    ensures WellNested(GroupOf(lines)) && Lines(GroupOf(lines)) == lines
    ensures var end := Run(GroupOf(lines), s);
      end.acted == s.acted + lines && forall n :: n in names ==> SameMeaning(n, s.defs, end.defs)
    decreases |lines|
  {
    if lines != [] {
      var g := GroupOf(lines);
      var s1 := Act(lines[0], s);
      forall n | n in names
        ensures Untouched(lines[1..], n) && SameMeaning(n, s.defs, s1.defs)
      {
        assert Untouched(lines, n);
      }
      GroupRuns(lines[1..], s1, names);
      assert [lines[0]] + lines[1..] == lines;
      assert s.acted + [lines[0]] + lines[1..] == s.acted + lines;
      assert Run(g, s) == Run(GroupOf(lines[1..]), s1);
    }
  }

  predicate SameMeaning(n: string, defs: Defines, defs': Defines) {
    (n in defs <==> n in defs') && (n in defs ==> defs[n] == defs'[n])
  }

  /** What a file made of one section comes to. */
  lemma SectionIs(pre: seq<Line>, head: Line, body: seq<Line>, tail: Tail, s: State, end: State)
    requires AllPlain(pre) && Begins(head) && AllPlain(body) && WellNestedTail(tail)
    requires Selects(pre + ([head] + body + TailLines(tail)), s, end)
    ensures end == RunPart(Section(head, GroupOf(body), tail), Run(GroupOf(pre), s))
  {
    hide Lines, Run, RunPart, WellNested, WellNestedTail, TailLines;
    var p := Section(head, GroupOf(body), tail);
    GroupRuns(body, s, {});
    OneSection(p);
    var g := BeforeSection(pre, p, s);
    SelectsOne(pre + ([head] + body + TailLines(tail)), s, end, Run(g, s));
  }

  lemma OneSection(p: Part)
    requires p.Section? && Begins(p.head) && WellNested(p.body) && WellNestedTail(p.tail)
    ensures WellNested(Item(p, Nothing)) && Lines(Item(p, Nothing)) == [p.head] + Lines(p.body) + TailLines(p.tail)
    ensures forall s :: Run(Item(p, Nothing), s) == RunPart(p, s)
  {
    hide TailLines, RunPart;
    assert Lines(Item(p, Nothing)) == PartLines(p) + [] == PartLines(p);
  }

  /** Plain lines before a section. */
  lemma {:induction false} BeforeSection(pre: seq<Line>, p: Part, s: State) returns (g: Group)
    requires AllPlain(pre) && WellNested(Item(p, Nothing))
    ensures WellNested(g) && Lines(g) == pre + Lines(Item(p, Nothing))
    ensures Run(g, s) == Run(Item(p, Nothing), Run(GroupOf(pre), s))
    decreases |pre|
  {
    if pre == [] {
      g := Item(p, Nothing);
      assert pre + Lines(g) == Lines(g);
    } else {
      var k := BeforeSection(pre[1..], p, Act(pre[0], s));
      g := Item(Part.Plain(pre[0]), k);
      assert [pre[0]] + (pre[1..] + Lines(Item(p, Nothing))) == pre + Lines(Item(p, Nothing));
    }
  }

  // An include guard

  function Guarded(name: string, args: Option<string>, value: string, body: seq<Line>, endif: Line): seq<Line> {
    [Ifndef(name), Define(name, args, value)] + body + [endif]
  }

  /** The name stands for nothing. */
  predicate Absent(name: string, defs: Defines) {
    name in defs ==> defs[name].value == None
  }

  /** Read for the first time its definition and all lines are acted on, and from then on none. */
  lemma IncludeGuard(name: string, args: Option<string>, value: string, body: seq<Line>, endif: Line, s: State, end: State, again: State)
    requires AllPlain(body) && Untouched(body, name) && endif.Endif? && Absent(name, s.defs)
    requires Selects(Guarded(name, args, value, body, endif), s, end) && Selects(Guarded(name, args, value, body, endif), end, again)
    ensures end.acted == s.acted + [Define(name, args, value)] + body && again == end
  {
    hide Selects, Run;
    var define := Define(name, args, value);
    var all := [define] + body;
    assert Guarded(name, args, value, body, endif) == [] + ([Ifndef(name)] + all + TailLines(Done(endif)));
    SectionIs([], Ifndef(name), all, Done(endif), s, end);
    SectionIs([], Ifndef(name), all, Done(endif), end, again);
    NoLines(s);
    NoLines(end);
    FirstLine(define, body, s);
    GroupRuns(body, Act(define, s), {name});
  }

  lemma NoLines(s: State)
    ensures Run(GroupOf([]), s) == s
  {
  }

  lemma FirstLine(line: Line, body: seq<Line>, s: State)
    requires PlainLine(line)
    ensures Run(GroupOf([line] + body), s) == Run(GroupOf(body), Act(line, s))
  {
    assert ([line] + body)[1..] == body;
  }

  // Whether a name is defined

  function Tested(head: Line, a: seq<Line>, els: Line, b: seq<Line>, endif: Line): seq<Line> {
    [head] + a + ([els] + b + [endif])
  }

  /** After a definition of the name, the first group is acted on, and with #ifndef the second. */
  lemma TestedDefined(name: string, args: Option<string>, value: string, a: seq<Line>, els: Line, b: seq<Line>, endif: Line,
      s: State, end: State, end': State)
    requires AllPlain(a) && AllPlain(b) && els.Else? && endif.Endif?
    requires Selects([Define(name, args, value)] + Tested(Ifdef(name), a, els, b, endif), s, end)
    requires Selects([Define(name, args, value)] + Tested(Ifndef(name), a, els, b, endif), s, end')
    ensures end.acted == s.acted + [Define(name, args, value)] + a
    ensures end'.acted == s.acted + [Define(name, args, value)] + b
  {
    hide Selects, Run;
    var define := Define(name, args, value);
    TestedRuns([define], Ifdef(name), a, els, b, endif, s, end);
    TestedRuns([define], Ifndef(name), a, els, b, endif, s, end');
    FirstLine(define, [], s);
    assert [define] + [] == [define];
    NoLines(Act(define, s));
  }

  /** After the name has been undefined it is the other way round. */
  lemma TestedUndefined(name: string, a: seq<Line>, els: Line, b: seq<Line>, endif: Line, s: State, end: State, end': State)
    requires AllPlain(a) && AllPlain(b) && els.Else? && endif.Endif? && name != ""
    requires Selects([Undef(name)] + Tested(Ifdef(name), a, els, b, endif), s, end)
    requires Selects([Undef(name)] + Tested(Ifndef(name), a, els, b, endif), s, end')
    ensures end.acted == s.acted + [Undef(name)] + b
    ensures end'.acted == s.acted + [Undef(name)] + a
  {
    hide Selects, Run;
    TestedRuns([Undef(name)], Ifdef(name), a, els, b, endif, s, end);
    TestedRuns([Undef(name)], Ifndef(name), a, els, b, endif, s, end');
    FirstLine(Undef(name), [], s);
    assert [Undef(name)] + [] == [Undef(name)];
    NoLines(Act(Undef(name), s));
  }

  /** As it is where the table does not have the name. */
  lemma TestedAbsent(name: string, a: seq<Line>, els: Line, b: seq<Line>, endif: Line, s: State, end: State, end': State)
    requires AllPlain(a) && AllPlain(b) && els.Else? && endif.Endif? && Absent(name, s.defs)
    requires Selects(Tested(Ifdef(name), a, els, b, endif), s, end)
    requires Selects(Tested(Ifndef(name), a, els, b, endif), s, end')
    ensures end.acted == s.acted + b && end'.acted == s.acted + a
  {
    hide Selects, Run;
    assert [] + Tested(Ifdef(name), a, els, b, endif) == Tested(Ifdef(name), a, els, b, endif);
    assert [] + Tested(Ifndef(name), a, els, b, endif) == Tested(Ifndef(name), a, els, b, endif);
    TestedRuns([], Ifdef(name), a, els, b, endif, s, end);
    TestedRuns([], Ifndef(name), a, els, b, endif, s, end');
    NoLines(s);
  }

  lemma TestedRuns(pre: seq<Line>, head: Line, a: seq<Line>, els: Line, b: seq<Line>, endif: Line, s: State, end: State)
    requires AllPlain(pre) && AllPlain(a) && AllPlain(b) && els.Else? && endif.Endif? && Begins(head)
    requires Selects(pre + Tested(head, a, els, b, endif), s, end)
    ensures var s1 := Run(GroupOf(pre), s); end.acted == s1.acted + if Holds(head, s1.defs) then a else b
  {
    hide Selects, Run, Holds;
    var tail := Otherwise(els, GroupOf(b), endif);
    var s1 := Run(GroupOf(pre), s);
    GroupRuns(a, s1, {});
    GroupRuns(b, s1, {});
    assert Tested(head, a, els, b, endif) == [head] + a + TailLines(tail);
    SectionIs(pre, head, a, tail, s, end);
  }

  // Sections with any number of #elif

  /** A further condition, and the lines behind it. */
  datatype Further = Further(cond: Defines -> bool, text: string, lines: seq<Line>)

  function FurtherLines(fs: seq<Further>, els: Option<seq<Line>>): seq<Line> {
    if fs == [] then (match els case None => [] case Some(b) => [Else("")] + b) + [Endif("")]
    else [Elif(fs[0].cond, fs[0].text)] + fs[0].lines + FurtherLines(fs[1..], els)
  }

  function TailFor(fs: seq<Further>, els: Option<seq<Line>>): Tail {
    if fs == [] then (match els case None => Tail.Done(Endif("")) case Some(b) => Otherwise(Else(""), GroupOf(b), Endif("")))
    else OrIf(Elif(fs[0].cond, fs[0].text), GroupOf(fs[0].lines), TailFor(fs[1..], els))
  }

  predicate FurtherPlain(fs: seq<Further>, els: Option<seq<Line>>) {
    (forall i :: 0 <= i < |fs| ==> AllPlain(fs[i].lines)) && (els.Some? ==> AllPlain(els.value))
  }

  /** The first condition that is true, -1 if none is. */
  predicate FirstTrue(fs: seq<Further>, defs: Defines, k: int) {
    if k == -1 then forall i :: 0 <= i < |fs| ==> !fs[i].cond(defs)
    else 0 <= k < |fs| && fs[k].cond(defs) && forall i :: 0 <= i < k ==> !fs[i].cond(defs)
  }

  lemma {:induction false} TailRuns(fs: seq<Further>, els: Option<seq<Line>>, s: State, k: int)
    requires FurtherPlain(fs, els) && FirstTrue(fs, s.defs, k)
    ensures WellNestedTail(TailFor(fs, els)) && TailLines(TailFor(fs, els)) == FurtherLines(fs, els)
    ensures RunTail(TailFor(fs, els), s).acted ==
      s.acted + if k >= 0 then fs[k].lines else if els.Some? then els.value else []
    decreases |fs|
  {
    hide Run, Lines, WellNested;
    if fs == [] {
      if els.Some? { GroupRuns(els.value, s, {}); }
    } else {
      GroupRuns(fs[0].lines, s, {});
      if k == 0 {
        var l := SomeTrue(fs[1..], s.defs);
        TailRuns(fs[1..], els, s, l);
      } else {
        assert FirstTrue(fs[1..], s.defs, if k == -1 then -1 else k - 1);
        TailRuns(fs[1..], els, s, if k == -1 then -1 else k - 1);
      }
    }
  }

  lemma {:induction false} SomeTrue(fs: seq<Further>, defs: Defines) returns (k: int)
    ensures FirstTrue(fs, defs, k)
    decreases |fs|
  {
    if fs == [] {
      k := -1;
    } else if fs[0].cond(defs) {
      k := 0;
    } else {
      var l := SomeTrue(fs[1..], defs);
      k := if l == -1 then -1 else l + 1;
      assert forall i :: 0 < i < |fs| ==> fs[i] == fs[1..][i - 1];
    }
  }

  /**
    Of a section the lines of one group at most are acted on: those behind the first condition that is true with
    the definitions before it, and those behind #else just when none is.
   */
  lemma OneGroupOnly(fs: seq<Further>, els: Option<seq<Line>>, s: State, end: State, k: int)
    requires fs != [] && FurtherPlain(fs, els) && FirstTrue(fs, s.defs, k)
    requires Selects([If(fs[0].cond)] + fs[0].lines + FurtherLines(fs[1..], els), s, end)
    ensures end.acted == s.acted + if k >= 0 then fs[k].lines else if els.Some? then els.value else []
  {
    hide Run, Lines, WellNested, Selects, RunTail, WellNestedTail, TailLines, FurtherLines;
    var l := SomeTrue(fs[1..], s.defs);
    TailRuns(fs[1..], els, s, l);
    GroupRuns(fs[0].lines, s, {});
    var lines := [If(fs[0].cond)] + fs[0].lines + FurtherLines(fs[1..], els);
    assert [] + lines == lines;
    SectionIs([], If(fs[0].cond), fs[0].lines, TailFor(fs[1..], els), s, end);
    NoLines(s);
    OneTrue(fs, s.defs, k, l);
  }

  lemma OneTrue(fs: seq<Further>, defs: Defines, k: int, l: int)
    requires fs != [] && FirstTrue(fs, defs, k) && FirstTrue(fs[1..], defs, l)
    ensures fs[0].cond(defs) ==> k == 0
    ensures !fs[0].cond(defs) ==> k == if l == -1 then -1 else l + 1
  {
    assert forall i :: 0 < i < |fs| ==> fs[i] == fs[1..][i - 1];
    assert forall i :: 0 <= i < |fs| - 1 ==> fs[1..][i] == fs[i + 1];
  }

  /** There is always such an end: the files of these laws balance. */
  lemma Balances(pre: seq<Line>, head: Line, body: seq<Line>, tail: Tail, s: State)
    requires AllPlain(pre) && Begins(head) && AllPlain(body) && WellNestedTail(tail)
    ensures Balanced(pre + ([head] + body + TailLines(tail)), [])
    ensures exists end :: Selects(pre + ([head] + body + TailLines(tail)), s, end)
  {
    hide Lines, Run, RunPart, WellNested, WellNestedTail, TailLines, Balanced;
    var p := Section(head, GroupOf(body), tail);
    GroupRuns(body, s, {});
    OneSection(p);
    var g := BeforeSection(pre, p, s);
    LinesBalanced(g, [], []);
    assert Lines(g) + [] == Lines(g);
    assert Selects(pre + ([head] + body + TailLines(tail)), s, Run(g, s));
    NothingBalanced();
  }

  lemma NothingBalanced()
    ensures Balanced([], [])
  {
  }
}
