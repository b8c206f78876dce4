/**
  makedepend's reading of nested conditionals, against the rules of section 6.10.1 of ISO/IEC 9899:1999.
  The lines here are directives, taken apart already; a condition is a function of the definitions.
 */
module Conditionals {
  import opened Symbols

  type Defines = map<string, Meaning>

  datatype Line =
    | If(cond: Defines -> bool)
    | Ifdef(name: string)
    | Ifndef(name: string)
    | Elif(cond: Defines -> bool, text: string)
    | Else(text: string)
    | Endif(text: string)
    | Define(name: string, args: Option<string>, value: string)
    | Undef(name: string)
    | Other   // pragmas and the like, and lines that are complained about

  // The rules

  /** A group of lines: directives, and sections of conditionals with groups of their own. */
  datatype Group = Nothing | Item(item: Part, rest: Group)

  datatype Part = Plain(line: Line) | Section(head: Line, body: Group, tail: Tail)

  /** What follows the first group of a section. */
  datatype Tail = Done(line: Line) | OrIf(line: Line, body: Group, more: Tail) | Otherwise(line: Line, body: Group, end: Line)

  predicate Begins(line: Line) {
    line.If? || line.Ifdef? || line.Ifndef?
  }

  /** The lines that end a group. */
  predicate Ends(line: Line) {
    line.Elif? || line.Else? || line.Endif?
  }

  predicate WellNested(g: Group)
    decreases g
  {
    g.Item? ==> WellNestedPart(g.item) && WellNested(g.rest)
  }

  predicate WellNestedPart(p: Part)
    decreases p
  {
    match p
    case Plain(line) => !Begins(line) && !Ends(line)
    case Section(head, body, tail) => Begins(head) && WellNested(body) && WellNestedTail(tail)
  }

  predicate WellNestedTail(t: Tail)
    decreases t
  {
    match t
    case Done(line) => line.Endif?
    case OrIf(line, body, more) => line.Elif? && WellNested(body) && WellNestedTail(more)
    case Otherwise(line, body, end) => line.Else? && WellNested(body) && end.Endif?
  }

  function Lines(g: Group): seq<Line>
    decreases g
  {
    match g
    case Nothing => []
    case Item(p, rest) => PartLines(p) + Lines(rest)
  }

  function PartLines(p: Part): seq<Line>
    decreases p
  {
    match p
    case Plain(line) => [line]
    case Section(head, body, tail) => [head] + Lines(body) + TailLines(tail)
  }

  function TailLines(t: Tail): (lines: seq<Line>)
    ensures lines != [] && lines[0] == t.line
    decreases t
  {
    match t
    case Done(line) => [line]
    case OrIf(line, body, more) => [line] + Lines(body) + TailLines(more)
    case Otherwise(line, body, end) => [line] + Lines(body) + [end]
  }

  /** What processing lines does: the definitions, and the lines acted on so far, in order. */
  datatype State = State(defs: Defines, acted: seq<Line>)

  predicate Defined(defs: Defines, name: string) {
    name in defs && defs[name].value.Some?
  }

  predicate Holds(line: Line, defs: Defines) {
    match line
    case If(cond) => cond(defs)
    case Elif(cond, _) => cond(defs)
    case Ifdef(name) => Defined(defs, name)
    case Ifndef(name) => !Defined(defs, name)
    case _ => false
  }

  function Act(line: Line, s: State): State {
    var defs :=
      match line
      case Define(name, args, value) => s.defs[name := Meaning(args, Some(value))]
      case Undef(name) => if name == "" then s.defs else s.defs[name := Meaning(None, None)]
      case _ => s.defs;
    State(defs, s.acted + [line])
  }

  function Run(g: Group, s: State): State
    decreases g
  {
    match g
    case Nothing => s
    case Item(p, rest) => Run(rest, RunPart(p, s))
  }

  /** The first group whose condition is true is processed, the others are skipped. */
  function RunPart(p: Part, s: State): State
    decreases p
  {
    match p
    case Plain(line) => Act(line, s)
    case Section(head, body, tail) => if Holds(head, s.defs) then Run(body, s) else RunTail(tail, s)
  }

  /** If none is true the #else group is processed, if there is one. */
  function RunTail(t: Tail, s: State): State
    decreases t
  {
    match t
    case Done(_) => s
    case OrIf(line, body, more) => if Holds(line, s.defs) then Run(body, s) else RunTail(more, s)
    case Otherwise(_, body, _) => Run(body, s)
  }

  // Where a reader stands

  /** What is left begins with the lines of g, and rest follows, at which g ends. */
  ghost predicate AtGroup(left: seq<Line>, g: Group, rest: seq<Line>) {
    left == Lines(g) + rest && WellNested(g) && rest != [] && Ends(rest[0])
  }

  /** What is left is a section from behind the first line of tail on, and rest follows. */
  ghost predicate AtTail(left: seq<Line>, tail: Tail, rest: seq<Line>) {
    left == TailLines(tail)[1..] + rest && WellNestedTail(tail)
  }

  // The parts of a group that begins with a section

  function BodyOf(g: Group): Group {
    if g.Item? && g.item.Section? then g.item.body else Nothing
  }

  function TailOf(g: Group): Tail {
    if g.Item? && g.item.Section? then g.item.tail else Done(Endif(""))
  }

  function RestOf(g: Group): Group {
    if g.Item? then g.rest else Nothing
  }

  lemma Associate(a: seq<Line>, b: seq<Line>, c: seq<Line>)
    ensures a + b + c == a + (b + c)
  {
  }

  lemma Behind(line: Line, a: seq<Line>)
    ensures ([line] + a)[1..] == a
  {
  }

  lemma SectionLines(head: Line, body: Group, tail: Tail, k: Group, rest: seq<Line>)
    ensures Lines(Item(Section(head, body, tail), k)) + rest == [head] + (Lines(body) + (TailLines(tail) + (Lines(k) + rest)))
  {
    hide TailLines;
    var g := Item(Section(head, body, tail), k);
    assert Lines(g) == PartLines(g.item) + Lines(k);
    Associate(PartLines(g.item), Lines(k), rest);
    Associate([head] + Lines(body), TailLines(tail), Lines(k) + rest);
    Associate([head], Lines(body), TailLines(tail) + (Lines(k) + rest));
  }

  lemma PlainLines(line: Line, k: Group, rest: seq<Line>)
    ensures Lines(Item(Plain(line), k)) + rest == [line] + (Lines(k) + rest)
  {
    assert Lines(Item(Plain(line), k)) == [line] + Lines(k);
  }

  lemma NothingLines(rest: seq<Line>)
    ensures Lines(Nothing) + rest == rest
  {
  }

  /** What the next line tells of the group that is due. */
  lemma NextLine(left: seq<Line>, g: Group, rest: seq<Line>)
    requires left == Lines(g) + rest && WellNested(g)
    ensures g.Nothing? ==> left == rest
    ensures g.Item? ==> left != [] && !Ends(left[0]) && (Begins(left[0]) <==> g.item.Section?)
    ensures g.Item? ==> WellNested(g.rest)
    ensures g.Item? && g.item.Plain? ==> left[0] == g.item.line && left[1..] == Lines(g.rest) + rest
    ensures g.Item? && g.item.Section? ==>
      && left[0] == g.item.head && WellNestedTail(g.item.tail)
      && AtGroup(left[1..], g.item.body, TailLines(g.item.tail) + (Lines(g.rest) + rest))
  {
    hide Lines, TailLines, WellNested, WellNestedTail;
    match g
    case Nothing => NothingLines(rest);
    case Item(p, k) =>
      Nested(g);
      match p
      case Plain(line) =>
        PlainLines(line, k, rest);
        Behind(line, Lines(k) + rest);
      case Section(head, body, tail) =>
        SectionLines(head, body, tail, k, rest);
        Behind(head, Lines(body) + (TailLines(tail) + (Lines(k) + rest)));
        TailEnds(tail);
  }

  lemma Nested(g: Group)
    requires WellNested(g) && g.Item?
    ensures WellNested(g.rest) && WellNestedPart(g.item)
  {
  }

  lemma TailEnds(t: Tail)
    requires WellNestedTail(t)
    ensures Ends(t.line)
  {
    hide WellNested;
  }

  /** What is due behind a line that ends a group. */
  lemma NextGroup(left: seq<Line>, tail: Tail, rest: seq<Line>)
    requires AtTail(left, tail, rest)
    ensures tail.Done? ==> left == rest && tail.line.Endif?
    ensures tail.OrIf? ==> tail.line.Elif? && AtGroup(left, tail.body, TailLines(tail.more) + rest) && WellNestedTail(tail.more)
    ensures tail.Otherwise? ==> tail.line.Else? && AtGroup(left, tail.body, [tail.end] + rest)
  {
    hide Lines, WellNested;
    match tail
    case Done(line) =>
    case OrIf(line, body, more) =>
      Associate([line], Lines(body), TailLines(more));
      Behind(line, Lines(body) + TailLines(more));
      Associate(Lines(body), TailLines(more), rest);
      TailEnds(more);
    case Otherwise(line, body, end) =>
      Associate([line], Lines(body), [end]);
      Behind(line, Lines(body) + [end]);
      Associate(Lines(body), [end], rest);
  }

  function TailBody(t: Tail): Group {
    if t.Done? then Nothing else t.body
  }

  /** What follows the group behind the first line of a tail. */
  function AfterBody(t: Tail): Tail {
    match t
    case Done(line) => t
    case OrIf(_, _, more) => more
    case Otherwise(_, _, end) => Done(end)
  }

  lemma AfterBodyIs(left: seq<Line>, tail: Tail, rest: seq<Line>)
    requires AtTail(left, tail, rest) && !tail.Done?
    ensures AtGroup(left, TailBody(tail), TailLines(AfterBody(tail)) + rest) && WellNestedTail(AfterBody(tail))
    ensures AtTail((TailLines(AfterBody(tail)) + rest)[1..], AfterBody(tail), rest)
  {
    hide Lines, WellNested, AtGroup;
    NextGroup(left, tail, rest);
    TailBehind(AfterBody(tail), rest);
  }

  lemma TailBehind(tail: Tail, rest: seq<Line>)
    ensures (TailLines(tail) + rest)[1..] == TailLines(tail)[1..] + rest && (TailLines(tail) + rest)[0] == tail.line
    ensures WellNestedTail(tail) ==> AtTail((TailLines(tail) + rest)[1..], tail, rest)
  {
    hide TailLines;
  }

  // The program

  datatype Type = IF | IFFALSE | IFDEF | IFNDEF | ELSE | ENDIF | DEFINE | UNDEF | ELIF | ELIFFALSE | OTHER | EOF

  class Reader {
    const lines: seq<Line>
    var next: nat
    var defs: Defines
    var acted: seq<Line>

    constructor (lines: seq<Line>, defs: Defines)
      ensures this.lines == lines && next == 0 && this.defs == defs && acted == []
    {
      this.lines, next, this.defs, acted := lines, 0, defs, [];
    }

    ghost predicate Valid()
      reads `next
    {
      next <= |lines|
    }

    ghost function Left(): (left: seq<Line>)
      reads `next
      ensures next < |lines| ==> left != [] && left[0] == lines[next]
      ensures next >= |lines| ==> left == []
    {
      if next <= |lines| then lines[next..] else []
    }

    function Now(): State
      reads `defs, `acted
    {
      State(defs, acted)
    }

    method GetNextLine() returns (line: Line)
      requires next < |lines|
      modifies `next
      ensures next == old(next) + 1 && line == old(Left()[0]) && Left() == old(Left())[1..]
    {
      line := lines[next];
      next := next + 1;
    }

    /** What kind of directive a line is; the condition of an #elif is looked at only while skipping. */
    function Deftype(line: Line, parse_it: bool): Type
      reads `defs
    {
      match line
      case If(cond) => if parse_it && !cond(defs) then IFFALSE else IF
      case Ifdef(_) => IFDEF
      case Ifndef(_) => IFNDEF
      case Elif(cond, _) => if !parse_it && !cond(defs) then ELIFFALSE else ELIF
      case Else(_) => ELSE
      case Endif(_) => ENDIF
      case Define(_, _, _) => DEFINE
      case Undef(_) => UNDEF
      case Other => OTHER
    }

    /** Skip a group, and those nested in it. */
    method Gobble(ghost g: Group, ghost rest: seq<Line>) returns (t: Type)
      requires Valid()
      modifies `next
      ensures Valid() && old(next) <= next && (t != EOF ==> old(next) < next)
      ensures old(AtGroup(Left(), g, rest)) ==> Left() == rest[1..] && t == Deftype(rest[0], false)
      decreases |lines| - next, 0
    {
      hide Left, AtTail, Lines, TailLines, WellNested, WellNestedTail;
      ghost var due := AtGroup(Left(), g, rest);
      ghost var h := g;
      while next < |lines|
        invariant Valid() && old(next) <= next
        invariant due ==> AtGroup(Left(), h, rest)
        decreases |lines| - next
      {
        if due { NextLine(Left(), h, rest); }
        var line := GetNextLine();
        t := Deftype(line, false);
        if t == IF || t == IFDEF || t == IFNDEF {
          GobbleSection(h, Lines(RestOf(h)) + rest);
          h := RestOf(h);
        } else if t == ELSE || t == ENDIF || t == ELIF || t == ELIFFALSE {
          return;
        } else {
          h := RestOf(h);
        }
      }
      t := EOF;
    }

    /** Skip a section, its first line having been read. */
    method GobbleSection(ghost g: Group, ghost rest: seq<Line>)
      requires Valid()
      modifies `next
      ensures Valid() && old(next) <= next
      ensures old(AtGroup(Left(), BodyOf(g), TailLines(TailOf(g)) + rest)) && WellNestedTail(TailOf(g)) ==> Left() == rest
      decreases |lines| - next, 2
    {
      hide Left, Lines, TailLines, WellNested, WellNestedTail, AtGroup;
      var t := Gobble(BodyOf(g), TailLines(TailOf(g)) + rest);
      TailBehind(TailOf(g), rest);
      SkipTail(t, TailOf(g), rest);
    }

    /** The other groups of a section are skipped, a group having ended with a line of type t0. */
    method SkipTail(t0: Type, ghost tail: Tail, ghost rest: seq<Line>)
      requires Valid()
      modifies `next
      ensures Valid() && old(next) <= next
      ensures old(AtTail(Left(), tail, rest)) && IsType(t0, tail.line) ==> Left() == rest
      decreases |lines| - next, 1
    {
      hide Left, Lines, TailLines, WellNested, WellNestedTail, AtTail, AtGroup;
      var t := t0;
      ghost var due := AtTail(Left(), tail, rest) && IsType(t0, tail.line);
      ghost var more := tail;
      while t == ELIF || t == ELIFFALSE
        invariant Valid() && old(next) <= next
        invariant due ==> AtTail(Left(), more, rest) && IsType(t, more.line)
        decreases |lines| - next, t != EOF
      {
        if due { NextGroup(Left(), more, rest); AfterBodyIs(Left(), more, rest); }
        TailBehind(AfterBody(more), rest);
        t := Gobble(TailBody(more), TailLines(AfterBody(more)) + rest);
        more := AfterBody(more);
      }
      if due { NextGroup(Left(), more, rest); }
      if t == ELSE {
        if due { AfterBodyIs(Left(), more, rest); }
        TailBehind(AfterBody(more), rest);
        t := Gobble(TailBody(more), TailLines(AfterBody(more)) + rest);
        if due { NextGroup(Left(), AfterBody(more), rest); }
      }
    }

    /** A line that is acted on. */
    method Process(line: Line)
      modifies `defs, `acted
      ensures Now() == Act(line, old(Now()))
    {
      if line.Define? {
        defs := defs[line.name := Meaning(line.args, Some(line.value))];
      } else if line.Undef? && line.name != "" {
        defs := defs[line.name := Meaning(None, None)];
      }
      acted := acted + [line];
    }

    /** What stands behind a true condition: the group is processed, the others of its section are skipped. */
    method DoIf(recursion: nat, ghost body: Group, ghost tail: Tail, ghost rest: seq<Line>)
      requires Valid()
      modifies this
      ensures Valid() && old(next) <= next
      ensures old(AtGroup(Left(), body, TailLines(tail) + rest)) && WellNestedTail(tail) ==>
        Left() == rest && Now() == Run(body, old(Now()))
      decreases |lines| - next, 5
    {
      hide Left, Lines, TailLines, WellNested, WellNestedTail, AtGroup, Run;
      TailBehind(tail, rest);
      var t := FindIncludes(recursion + 1, body, TailLines(tail) + rest);
      SkipTail(t, tail, rest);
    }

    /** What stands behind a false one: the group is skipped, and the next one tried. */
    method DoIfFalse(recursion: nat, ghost body: Group, ghost tail: Tail, ghost rest: seq<Line>)
      requires Valid()
      modifies this
      ensures Valid() && old(next) <= next
      ensures old(AtGroup(Left(), body, TailLines(tail) + rest)) && WellNestedTail(tail) ==>
        Left() == rest && Now() == RunTail(tail, old(Now()))
      decreases |lines| - next, 6
    {
      hide Left, Lines, TailLines, WellNested, WellNestedTail, AtGroup, AtTail, Run, RunTail;
      ghost var due := AtGroup(Left(), body, TailLines(tail) + rest) && WellNestedTail(tail);
      ghost var b, more := body, tail;
      TailBehind(tail, rest);
      var t := Gobble(b, TailLines(tail) + rest);
      while t == ELIFFALSE
        invariant Valid() && old(next) <= next && Now() == old(Now())
        invariant due ==> AtTail(Left(), more, rest) && WellNestedTail(more) && t == Deftype(more.line, false)
        invariant due ==> RunTail(tail, old(Now())) == RunTail(more, old(Now()))
        decreases |lines| - next, t != EOF
      {
        if due { NextGroup(Left(), more, rest); AfterBodyIs(Left(), more, rest); NextTail(more, Now()); }
        TailBehind(AfterBody(more), rest);
        t := Gobble(TailBody(more), TailLines(AfterBody(more)) + rest);
        more := AfterBody(more);
      }
      if due { NextGroup(Left(), more, rest); NextTail(more, Now()); }
      if t == ELSE {
        if due { AfterBodyIs(Left(), more, rest); }
        TailBehind(AfterBody(more), rest);
        t := FindIncludes(recursion + 1, TailBody(more), TailLines(AfterBody(more)) + rest);
        if due { NextGroup(Left(), AfterBody(more), rest); }
      } else if t == ELIF {
        if due { AfterBodyIs(Left(), more, rest); }
        DoIf(recursion, TailBody(more), AfterBody(more), rest);
      }
    }

    /** Read on until the group ends, acting on what is not skipped. */
    method FindIncludes(recursion: nat, ghost g: Group, ghost rest: seq<Line>) returns (t: Type)
      requires Valid()
      modifies this
      ensures Valid() && old(next) <= next && (t != EOF ==> old(next) < next)
      ensures recursion > 0 && old(AtGroup(Left(), g, rest)) ==>
        Left() == rest[1..] && t == Deftype(rest[0], true) && Now() == Run(g, old(Now()))
      ensures recursion == 0 && rest == [] && old(Left()) == Lines(g) && WellNested(g) ==>
        Left() == [] && t == EOF && Now() == Run(g, old(Now()))
      decreases |lines| - next, 4
    {
      hide Left, Lines, TailLines, WellNested, WellNestedTail, AtGroup, Run, RunPart, Act;
      ghost var due := AtFile(Left(), g, rest, recursion);
      ghost var h := g;
      AtFileIs(Left(), g, rest, recursion);
      while next < |lines|
        invariant Valid() && old(next) <= next
        invariant due ==> AtFile(Left(), h, rest, recursion) && Run(g, old(Now())) == Run(h, Now())
        decreases |lines| - next
      {
        ghost var was := Now();
        if due { FileLine(Left(), h, rest, recursion); RunNext(h, was); }
        var line := GetNextLine();
        t := Deftype(line, true);
        if t == IF || ((t == IFDEF || t == IFNDEF) && Holds(line, defs)) {
          DoIf(recursion, BodyOf(h), TailOf(h), Lines(RestOf(h)) + rest);
        } else if t == IFFALSE || t == IFDEF || t == IFNDEF {
          DoIfFalse(recursion, BodyOf(h), TailOf(h), Lines(RestOf(h)) + rest);
        } else if t == ELSE || t == ELIF || t == ENDIF {
          if recursion > 0 { return; }
          PStray(line);
        } else {
          Process(line);
        }
        h := RestOf(h);
      }
      if due { FileEnd(Left(), h, rest, recursion); RunNext(h, Now()); }
      t := EOF;
    }

    /** A line that ends a group, where there is none: what follows an #else or #elif is skipped, and the line is taken for a definition. */
    method PStray(line: Line)
      requires Valid() && Ends(line)
      modifies this
      ensures Valid() && old(next) <= next
    {
      if !line.Endif? { var t := Gobble(Nothing, []); }
      Process(Define("", None, line.text));
    }
  }

  /** A group to be processed: one that ends where rest begins or, at the outermost level, with the file. */
  ghost predicate AtFile(left: seq<Line>, g: Group, rest: seq<Line>, recursion: nat) {
    if recursion > 0 then AtGroup(left, g, rest) else left == Lines(g) + rest && WellNested(g) && rest == []
  }

  lemma AtFileIs(left: seq<Line>, g: Group, rest: seq<Line>, recursion: nat)
    ensures recursion == 0 && left == Lines(g) && WellNested(g) && rest == [] ==> AtFile(left, g, rest, recursion)
    ensures recursion > 0 && AtGroup(left, g, rest) ==> AtFile(left, g, rest, recursion)
  {
    hide Lines, WellNested, AtGroup;
    assert Lines(g) + [] == Lines(g);
  }

  lemma FileLine(left: seq<Line>, g: Group, rest: seq<Line>, recursion: nat)
    requires AtFile(left, g, rest, recursion) && left != []
    ensures g.Nothing? ==> recursion > 0 && left == rest && Ends(rest[0])
    ensures g.Item? ==> !Ends(left[0]) && (Begins(left[0]) <==> g.item.Section?)
    ensures g.Item? && g.item.Plain? ==> left[0] == g.item.line && AtFile(left[1..], g.rest, rest, recursion)
    ensures g.Item? && g.item.Section? ==>
      && left[0] == g.item.head && WellNestedTail(g.item.tail)
      && AtGroup(left[1..], g.item.body, TailLines(g.item.tail) + (Lines(g.rest) + rest))
      && AtFile(Lines(g.rest) + rest, g.rest, rest, recursion)
  {
    hide Lines, WellNested, TailLines, WellNestedTail;
    NextLine(left, g, rest);
  }

  lemma FileEnd(left: seq<Line>, g: Group, rest: seq<Line>, recursion: nat)
    requires AtFile(left, g, rest, recursion) && left == []
    ensures recursion == 0 && g == Nothing
  {
    hide Lines, WellNested;
    NextLine(left, g, rest);
  }

  lemma RunNext(g: Group, s: State)
    ensures g.Nothing? ==> Run(g, s) == s
    ensures g.Item? && g.item.Plain? ==> Run(g, s) == Run(g.rest, Act(g.item.line, s))
    ensures g.Item? && g.item.Section? ==>
      Run(g, s) == Run(g.rest, if Holds(g.item.head, s.defs) then Run(g.item.body, s) else RunTail(g.item.tail, s))
  {
    hide Act, RunTail;
  }

  lemma NextTail(t: Tail, s: State)
    ensures t.Done? ==> RunTail(t, s) == s
    ensures t.OrIf? ==> RunTail(t, s) == if Holds(t.line, s.defs) then Run(t.body, s) else RunTail(t.more, s)
    ensures t.Otherwise? ==> RunTail(t, s) == Run(t.body, s)
  {
    hide Run;
  }

  predicate IsType(t: Type, line: Line) {
    (t == ENDIF <==> line.Endif?) && (t == ELSE <==> line.Else?) && (t == ELIF || t == ELIFFALSE <==> line.Elif?)
  }

  // Which files are well nested

  /** Per section that is open, the innermost first: has there been an #else? */
  type Stack = seq<bool>

  /** Every line that ends a group finds one open, #else comes once and last, and no section is left open. */
  predicate Balanced(lines: seq<Line>, open: Stack)
    decreases |lines|
  {
    if lines == [] then open == []
    else if Begins(lines[0]) then Balanced(lines[1..], [false] + open)
    else if Ends(lines[0]) then
      && open != [] && (open[0] ==> lines[0].Endif?)
      && Balanced(lines[1..], if lines[0].Endif? then open[1..] else [lines[0].Else?] + open[1..])
    else Balanced(lines[1..], open)
  }

  /** A file without open sections is made of groups. */
  lemma {:induction false} Grouped(lines: seq<Line>, open: Stack) returns (g: Group, rest: seq<Line>)
    requires Balanced(lines, open)
    ensures lines == Lines(g) + rest && WellNested(g) && Balanced(rest, open)
    ensures if open == [] then rest == [] else rest != [] && Ends(rest[0])
    decreases |lines|, 1
  {
    hide Lines, TailLines, WellNested, WellNestedTail;
    g, rest := Nothing, lines;
    NothingLines(lines);
    IsNested(Nothing);
    if lines != [] && Begins(lines[0]) {
      var body, r1 := Grouped(lines[1..], [false] + open);
      var tail, r2 := Tailed(r1, open, |lines| - 1);
      var k;
      k, rest := Grouped(r2, open);
      g := Item(Section(lines[0], body, tail), k);
      SectionLines(lines[0], body, tail, k, rest);
      IsNested(g);
    } else if lines != [] && !Ends(lines[0]) {
      var k;
      k, rest := Grouped(lines[1..], open);
      g := Item(Plain(lines[0]), k);
      PlainLines(lines[0], k, rest);
      IsNested(g);
    }
  }

  lemma IsNested(g: Group)
    ensures g.Nothing? ==> WellNested(g)
    ensures g.Item? ==> (WellNested(g) <==> WellNestedPart(g.item) && WellNested(g.rest))
  {
    hide WellNestedPart;
  }

  lemma {:induction false} Tailed(lines: seq<Line>, open: Stack, n: nat) returns (t: Tail, rest: seq<Line>)
    requires Balanced(lines, [false] + open) && lines != [] && Ends(lines[0]) && |lines| <= n
    ensures lines == TailLines(t) + rest && WellNestedTail(t) && Balanced(rest, open) && |rest| < n
    decreases n, 0
  {
    hide Lines, WellNested;
    assert ([false] + open)[1..] == open;
    rest := lines[1..];
    if lines[0].Endif? {
      t := Done(lines[0]);
    } else {
      var body, r1 := Grouped(lines[1..], [lines[0].Else?] + open);
      assert ([true] + open)[1..] == open;
      if lines[0].Elif? {
        var more;
        more, rest := Tailed(r1, open, n - 1);
        t := OrIf(lines[0], body, more);
        Associate([lines[0]], Lines(body), TailLines(more) + rest);
        Associate([lines[0]] + Lines(body), TailLines(more), rest);
      } else {
        t := Otherwise(lines[0], body, r1[0]);
        rest := r1[1..];
        Associate([lines[0]], Lines(body), [r1[0]] + rest);
        Associate([lines[0]] + Lines(body), [r1[0]], rest);
      }
    }
  }

  /** And only such a file is. */
  lemma {:induction false} LinesBalanced(g: Group, rest: seq<Line>, open: Stack)
    requires WellNested(g)
    ensures Balanced(Lines(g) + rest, open) <==> Balanced(rest, open)
    decreases g
  {
    hide Lines, TailLines, WellNestedTail;
    match g
    case Nothing => NothingLines(rest);
    case Item(p, k) =>
      LinesBalanced(k, rest, open);
      match p
      case Plain(line) =>
        PlainLines(line, k, rest);
        Behind(line, Lines(k) + rest);
      case Section(head, body, tail) =>
        var r := TailLines(tail) + (Lines(k) + rest);
        SectionLines(head, body, tail, k, rest);
        Behind(head, Lines(body) + r);
        LinesBalanced(body, r, [false] + open);
        TailBalanced(tail, Lines(k) + rest, open);
  }

  lemma {:induction false} TailBalanced(t: Tail, rest: seq<Line>, open: Stack)
    requires WellNestedTail(t)
    ensures Balanced(TailLines(t) + rest, [false] + open) <==> Balanced(rest, open)
    decreases t
  {
    hide Lines, WellNested;
    assert ([false] + open)[1..] == open && ([true] + open)[1..] == open;
    match t
    case Done(line) =>
      Behind(line, rest);
    case OrIf(line, body, more) =>
      var r := TailLines(more) + rest;
      Associate([line] + Lines(body), TailLines(more), rest);
      Associate([line], Lines(body), r);
      Behind(line, Lines(body) + r);
      LinesBalanced(body, r, [false] + open);
      TailBalanced(more, rest, open);
    case Otherwise(line, body, end) =>
      var r := [end] + rest;
      Associate([line] + Lines(body), [end], rest);
      Associate([line], Lines(body), r);
      Behind(line, Lines(body) + r);
      LinesBalanced(body, r, [true] + open);
      Behind(end, rest);
  }

  predicate Closed(rest: seq<Line>) {
    rest != [] ==> Ends(rest[0])
  }

  /** There is one way to group the lines of a file. */
  lemma {:induction false} OneGrouping(g: Group, r: seq<Line>, h: Group, q: seq<Line>)
    requires WellNested(g) && WellNested(h) && Lines(g) + r == Lines(h) + q && Closed(r) && Closed(q)
    ensures g == h && r == q
    decreases g
  {
    hide Lines, TailLines, WellNested, WellNestedTail;
    NextLine(Lines(g) + r, g, r);
    NextLine(Lines(h) + q, h, q);
    if g.Item? {
      if g.item.Section? {
        var a, b := TailLines(g.item.tail) + (Lines(g.rest) + r), TailLines(h.item.tail) + (Lines(h.rest) + q);
        OneGrouping(g.item.body, a, h.item.body, b);
        OneTail(g.item.tail, Lines(g.rest) + r, h.item.tail, Lines(h.rest) + q);
      }
      OneGrouping(g.rest, r, h.rest, q);
    }
  }

  lemma {:induction false} OneTail(t: Tail, r: seq<Line>, u: Tail, q: seq<Line>)
    requires WellNestedTail(t) && WellNestedTail(u) && TailLines(t) + r == TailLines(u) + q
    ensures t == u && r == q
    decreases t
  {
    hide Lines, TailLines, WellNested, WellNestedTail, AtTail, AtGroup;
    TailBehind(t, r);
    TailBehind(u, q);
    TailParts(t, r);
    TailParts(u, q);
    if !t.Done? {
      var a, b := TailLines(AfterBody(t)) + r, TailLines(AfterBody(u)) + q;
      OneGrouping(t.body, a, u.body, b);
      if t.OrIf? { OneTail(t.more, r, u.more, q); } else { SameEnd(t.end, r, u.end, q); }
    } else {
      SameEnd(t.line, r, u.line, q);
    }
  }

  lemma SameEnd(a: Line, r: seq<Line>, b: Line, q: seq<Line>)
    requires TailLines(Done(a)) + r == TailLines(Done(b)) + q
    ensures a == b && r == q
  {
    assert (TailLines(Done(a)) + r)[0] == a && (TailLines(Done(b)) + q)[0] == b;
    Behind(a, r);
    Behind(b, q);
  }

  lemma TailParts(t: Tail, r: seq<Line>)
    requires WellNestedTail(t)
    ensures (t.Done? <==> t.line.Endif?) && (t.OrIf? <==> t.line.Elif?)
    ensures !t.Done? ==>
      && WellNested(t.body) && (TailLines(t) + r)[1..] == Lines(t.body) + (TailLines(AfterBody(t)) + r)
      && Closed(TailLines(AfterBody(t)) + r)
    ensures t.OrIf? ==> WellNestedTail(t.more)
  {
    hide Lines, WellNested;
    TailBehind(t, r);
    NextGroup(TailLines(t)[1..] + r, t, r);
    if !t.Done? { AfterBodyIs(TailLines(t)[1..] + r, t, r); }
  }

  /** What the rules make of a well-nested file. */
  ghost predicate Selects(lines: seq<Line>, s: State, end: State) {
    exists g :: WellNested(g) && Lines(g) == lines && end == Run(g, s)
  }

  /** They leave no choice. */
  lemma SelectsOne(lines: seq<Line>, s: State, end: State, end': State)
    requires Selects(lines, s, end) && Selects(lines, s, end')
    ensures end == end'
  {
    hide Lines, WellNested, Run;
    var g :| WellNested(g) && Lines(g) == lines && end == Run(g, s);
    var h :| WellNested(h) && Lines(h) == lines && end' == Run(h, s);
    assert Lines(g) + [] == Lines(h) + [];
    OneGrouping(g, [], h, []);
  }

  /** Reading a well-nested file through does what the rules say, and leaves nothing unread. */
  method ReadThrough(lines: seq<Line>, defs: Defines) returns (end: State, unread: nat)
    ensures Balanced(lines, []) ==> unread == 0 && Selects(lines, State(defs, []), end)
  {
    hide Lines, WellNested, Run, Balanced;
    var reader := new Reader(lines, defs);
    ghost var g, rest := Nothing, [];
    if Balanced(lines, []) { g, rest := Grouped(lines, []); }
    assert Lines(g) + [] == Lines(g);
    assert reader.Left() == lines;
    var t := reader.FindIncludes(0, g, []);
    end, unread := reader.Now(), |lines| - reader.next;
  }
}
