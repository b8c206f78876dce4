# Four components of XFree86, modelled and proved in Dafny

`dafny verify dfyconfig.toml` checks the whole project.

## The regular expression library (`source/extras/regex`)

The compiler (`regcomp.c`) turns an extended regular expression into a strip of operators with relative offsets,
inserting into the middle of it and patching offsets as it reads. The matcher (`engine.c`) runs the strip as an
automaton on sets of states, held in a word or in an array of bytes (`regexec.c`).

* `Strip`, `Language`, `Automaton`, `Correctness`: operators and offsets, what an expression matches, the strip as an
  automaton, and the theorem that its code accepts exactly what the expression matches.
* `Words`, `States`, `Steps`, `Runs`, `Engine`: the two representations, `step`, and the searches `slow` and `fast`.
* `Dissection`, `Subexpressions`: which text each group gets, and `dissect`.
* `Must`, `Execution`, `SearchProperties`: the prescreen, `matcher` and `regexec`, and what a caller may rely on.
* `CharSets`, `Pattern`, `Spelling`, `GroupNumbers`, `Grammar`, `Emit`, `Brackets`, `Repetition`, `Progress`,
  `Regcomp`: the compiler. `Pattern` defines what a pattern means without reference to strips; `Grammar` says which
  trees are readings of a pattern.
* `Unambiguous`, `Regex`: a pattern has one reading; compiling and executing together find what it means.
* `Readings`, `PatternLaws`: what patterns mean, by their texts: ranges and lists, characters, repetitions, bars and
  parentheses.
* `GroupSpans`, `GroupLaws`: which stretch the groups of `(p)`, `(p)?`, `(p)+`, `(p)*`, `(p)|(q)` and `(p)(q)` are
  reported to have, for all patterns p and q, by what these mean.
* `Iterations`, `Counterexamples`: when the iterations of a loop use up what it matched, and patterns for which the
  library does not do what one may expect.

Main results: `Regex.Regcomp` (the patterns accepted are exactly those of the grammar, and the program is for exactly
the meaning), `Regex.OutcomeMeans`, `Steps.Step`, `Engine.Slow`, `Subexpressions.Dissect`, `Must.MustIsSound`,
`SearchProperties.BothRepresentations`.

A match reported is always the longest from its start, but not always the leftmost: `fast` may pass the start of a
match, as it does for `(z*|x)b` on `xb` (`Counterexamples.LeftmostFails`). `SearchProperties.LeftmostIff` says exactly
when the match reported is the leftmost, and `SearchProperties.AlwaysLeftmostIff` for which programs it always is.

`regex.7` promises that subexpressions match the longest possible substrings, earlier ones first. The code gives each
node the longest stretch instead, so a group of more than one node may get less than it could: of `xy`,
`(x?(xy)?)(y?)` gives its first group the `x` (`Counterexamples.LongestSubexpressionFails`). `GroupLaws.BothGroups` says
exactly when a group is the longest it could be, and `GroupLaws.LongestFirst` for which groups it always is.

In `dissect` the assertion that a loop's last iteration exhausts its stretch can fail, as with `(ab|abc|cd)+` on
`abcd` (`Counterexamples.LastIterationFallsShort`); assertions are compiled out, and the model does what the code then
does. `Iterations.ExhaustsIff` says when it holds for a stretch, `Iterations.AlwaysExhaustsIff` when it does for all
stretches of an expression. `x{0}` on its own is refused, since a branch that leaves no code counts as empty;
`Grammar.VanishesIff` and `Counterexamples.VanishingRefused` state that rule.

## The conditional interpreter, symbol tables and expressions of makedepend (`source/config/makedepend`)

* `Symbols`: the sorted arrays of definitions in `parse.c`, which behave like maps and never overrun their space.
* `Conditionals`: `find_includes` and `gobble`, which act on exactly the lines that section 6.10.1 of
  ISO/IEC 9899:1999 selects. The `goto`s between true and false conditions are the methods `DoIf` and `DoIfFalse`.
* `ConditionalLaws`: what that comes to for include guards, `#ifdef` with `#else`, and chains of `#elif`.
* `IfParser`: the eleven levels of `ifparser.c`, and expressions printed as those levels need it.
* `OperatorLaws`: what each operator computes, by laws between the values of texts that are read.
* `Grouping`: the comment in `ifparser.c` promises the precedence of C, and it has that, but operators of one level
  group to the right. `Grouping.ParsesRegrouped` says what becomes of an expression written as in C, and
  `Grouping.RegroupedSame`, `AgreesWithC` and `AgreesIff` when that is what C makes of it. The text is C's where
  the spaces between its tokens are not empty. A name that begins with
  `defined` and goes on with an underscore is taken for the operator (`Grouping.NameReadIff`, `TakenForDefined`).

## The layout of wraps by pswrap (`source/config/pswrap`)

* `PswDict`, `PswString`: hash dictionaries that behave like maps; strings and the C constants written for them.
* `PswLayout`, `PswShare`, `PswWrap`: the layout of a token tree, what it is for a reader who follows counts and
  offsets, and the two passes that produce it. Strings of one text share an entry whatever they stand for, so
  `(41) <41>` cannot be read back; `PswShare.DecodesIff` and `PswWrap.Generate` say exactly when a tree can.
* `PswFlatten`, `PswSplice`: arrays with executable names taken apart into brackets, as a token tree and by relinking
  nodes in memory. A comment in `FlattenSomeArrays` says that all arrays within a procedure are flattened; the code
  flattens there only what it flattens elsewhere. `PswFlatten.ProcsFlatIff` says when that is all of them.
* `PswEmit`: flattening in memory, the check of the size and both passes, one after the other.

## The checksums of zlib (`source/extras/zlib`)

* `Crc32`: the table-driven checksum is that of the shift register of section 8 of RFC 1952; no burst of up to 32 bits
  goes unnoticed.
* `Adler32`: reducing once per chunk gives the checksum of section 2.2 of RFC 1950. The comment in `adler32.c` bounds
  the sums for reduced start values; they are safe for all.

## Model

| member | source | states |
|---|---|---|
| Strip.CodeIsAt | source/extras/regex/regex2.h:48-68 | wherever the strip equals the code emitted for an expression, every operator is in place and its operand reaches its partner |
| Strip.AppendCode | source/extras/regex/regcomp.c:1366-1386 | the code of a concatenation is the code of its parts, one after the other, offsets unchanged |
| Automaton.CodeWellFormed | source/extras/regex/regex2.h:56-66 | no offset in emitted code leads out of it, and every offset lands on the kind of operator the matcher expects there |
| Automaton.ClosureIsClosed | source/extras/regex/engine.c:796-811 | the closure of a set of states contains it and is closed under empty edges |
| Automaton.ClosureIsLeast | source/extras/regex/engine.c:796-811 | every closed set that contains the given states contains their closure |
| Correctness.AcceptsLanguage | source/extras/regex/regcomp.c:191-380 | the code of an expression, run as an automaton between its first and last state, accepts exactly the texts the expression matches |
| Correctness.RunLeads | source/extras/regex/engine.c:811-923 | the states a run can be in are those to which the text read leads from the start of the code, all of them and no others |
| Words.MaskInjective | source/extras/regex/regexec.c:39-41 | the words for different states are different, so that a state is found in a word just when it was put there |
| States.StateSet.Clear | source/extras/regex/regexec.c:28-28 | in either representation, no state is left |
| States.StateSet.Set1 | source/extras/regex/regexec.c:30-30 | in either representation, exactly one state is added |
| States.StateSet.Assign | source/extras/regex/regexec.c:32-32 | in either representation, the members become those of the source, which is left as it is |
| States.StateSet.Equals | source/extras/regex/regexec.c:33-33 | comparing words, or bytes, decides whether the sets of states are the same |
| States.StateSet.IsStateIn | source/extras/regex/regexec.c:41-41 | the test is true just when the state is a member |
| States.StateSet.Fwd | source/extras/regex/regexec.c:44-44 | shifting a word left, or indexing bytes ahead, adds the state n ahead just when the present one is in the source |
| States.StateSet.Back | source/extras/regex/regexec.c:45-45 | the same, n behind |
| States.StateSet.IsSetBack | source/extras/regex/regexec.c:46-46 | the test is true just when the state n behind is a member |
| Steps.Step | source/extras/regex/engine.c:811-923 | in one forward scan with jumps back, the least set that contains aft and the successors of bef and is closed under empty edges, whichever representation is used |
| Steps.Switch | source/extras/regex/engine.c:823-920 | one operator adds to aft exactly what its edges allow, and asks for a jump back just when the loop's start is new |
| Steps.FewerLeft | source/extras/regex/engine.c:853-868 | each jump back leaves fewer states still to be added, which is why the scan ends |
| Runs.SearchIsRuns | source/extras/regex/engine.c:624-708 | the states of a search are those of the attempts begun at any position so far |
| Runs.RunDead | source/extras/regex/engine.c:715-794 | once an attempt has no states left no longer text brings it back |
| Engine.Boundary | source/extras/regex/engine.c:643-681 | with no anchors in the strip, crossing a line or word boundary changes no states |
| Engine.Slow | source/extras/regex/engine.c:715-794 | the greatest p such that the region accepts the text from start to p, and none just when there is no such p, for every region and text |
| Engine.Fast | source/extras/regex/engine.c:624-708 | true just when some stretch of the text is accepted, the end of the first to end, and the last cold position before it |
| Dissection.LongestHolds | source/extras/regex/engine.c:294-303 | the longest match is one, and no longer stretch is |
| Dissection.SplitExists | source/extras/regex/engine.c:291-329 | when a concatenation matches a text, the search for a split between its first part and the rest always finds one |
| Dissection.GroupsMatch | source/extras/regex/engine.c:394-403 | every span recorded for a group lies inside the text dissected and holds a text the group's own body matches; a group not inside a loop or choice always gets one |
| Dissection.LastIterationMatches | source/extras/regex/engine.c:332-345 | the stretch taken for the last iteration of a loop is one its body matches |
| Subexpressions.EndOfSub | source/extras/regex/engine.c:256-268 | the end found by following offsets is where the next subexpression begins |
| Subexpressions.FindSplit | source/extras/regex/engine.c:293-305 | the longest stretch the subexpression can take so that the rest still matches the rest |
| Subexpressions.FindLast | source/extras/regex/engine.c:332-345 | the last iteration by repeated longest matches, also where it does not exhaust the stretch |
| Subexpressions.FindBranch | source/extras/regex/engine.c:366-382 | the first branch that matches all of the stretch, found by following the operators between branches |
| Subexpressions.Dissect | source/extras/regex/engine.c:231-412 | whatever region accepts exactly the stretch, it ends at stop, and writes the spans of the rule stated on the expression alone |
| Must.FindMust | source/extras/regex/regcomp.c:1496-1571 | the string found is a run of characters every match passes through, and none longer is; the strip is never taken for a bad one |
| Must.MustIsSound | source/extras/regex/regcomp.c:1486-1496 | every text the expression matches contains the string found for it |
| Execution.FindMustIn | source/extras/regex/engine.c:96-104 | the prescreen finds the string just when the text contains it between start and stop |
| Execution.NoMustNoMatch | source/extras/regex/engine.c:102-103 | a text without the string has no match, so the prescreen hides none |
| Execution.FindStart | source/extras/regex/engine.c:131-140 | from a position at or before a match, the loop ends at the first start that has one, with the longest match from there |
| Execution.Find | source/extras/regex/engine.c:121-180 | a hit just when some stretch matches; the span reported, and the groups of its dissection |
| Execution.Matcher | source/extras/regex/engine.c:65-224 | everything a caller sees: the result, which elements of pmatch are written, the span of the match and of every group, and -1 for groups there are not |
| Execution.Regexec | source/extras/regex/regexec.c:116-142 | the same, with the representation chosen by the number of states; what is not marked as a compiled expression, or is marked as bad, is refused with pmatch untouched |
| SearchProperties.OutcomeUnique | source/extras/regex/regexec.c:136-141 | what a caller sees is determined by strip, text and request: two executions never differ, whichever representation each used |
| SearchProperties.BothRepresentations | source/extras/regex/regexec.c:136-141 | for up to 32 states, the engine on words and the engine on bytes fill pmatch alike |
| SearchProperties.GroupsInsideMatch | source/extras/regex/engine.c:231-412 | every group reported lies inside the match reported and holds a text its body matches |
| SearchProperties.LeftmostIff | source/extras/regex/engine.c:131-140 | the match reported is the leftmost just when no match begins before a cold position that is no later than the end of the first match to end |
| SearchProperties.AlwaysLeftmostIff | source/extras/regex/engine.c:624-708 | of a program, every match reported in any text is the leftmost just when inside no match of the expression, before any match in it has ended, all attempts under way are in states of a fresh start |
| SearchProperties.ColdSafeIsLeftmost | source/extras/regex/engine.c:624-708 | the match reported is the leftmost in every text, when no state directly behind a character operator is in the empty closure of the start |
| SearchProperties.ColdStarts | source/extras/regex/engine.c:121-140 | from a cold position on, every match begun earlier has one that begins there and ends with it, so none that ends is lost |
| SearchProperties.LeftmostCanFail | source/extras/regex/engine.c:624-708 | of any program for the expression of (z*&#124;x)b, the one match that can be reported in xb begins at 1 though one begins at 0 |
| Counterexamples.LeftmostFails | source/extras/regex/engine.c:624-708 | for every program the compiler can make of (z*&#124;x)b and every request, xb is reported as matched from 1 to 2, though the pattern means all of it |
| Iterations.ExhaustsIff | source/extras/regex/engine.c:332-346 | the iterations of a loop use up its stretch just when none of them, short of its end, is where only an empty one or none can follow |
| Iterations.AlwaysExhaustsIff | source/extras/regex/engine.c:332-346 | every stretch of iterations of an expression is used up just when what the longest first iteration leaves over always consists of iterations |
| Iterations.LoopExhausts | source/extras/regex/engine.c:332-346 | if no text of the expression but the empty one begins a longer one, the last iteration ends where the loop ends, in every text |
| Counterexamples.LastIterationFallsShort | source/extras/regex/engine.c:332-346 | for every program of (ab&#124;abc&#124;cd)+ and every request, all of abcd is matched and the group said to be abc: the iterations stop short of the end |
| Counterexamples.VanishingRefused | source/extras/regex/regcomp.c:203-210 | what is written as a branch of pieces all repeated zero times is no pattern |
| Counterexamples.ZeroTimesRefused | source/extras/regex/regcomp.c:203-210 | x{0} is refused |
| CharSets.OneMember | source/extras/regex/regex2.h:82-92 | setting or clearing one bit changes that set by that member, and no other set in the column |
| CharSets.SetStore.constructor | source/extras/regex/regcomp.c:130-142 | there are no sets to begin with |
| CharSets.SetStore.Has | source/extras/regex/regex2.h:92-92 | CHIN is true just for members |
| CharSets.SetStore.Add | source/extras/regex/regex2.h:90-90 | the set gains one member; every other live set is unchanged |
| CharSets.SetStore.Sub | source/extras/regex/regex2.h:91-91 | the set loses one member; every other live set is unchanged |
| CharSets.SetStore.AllocSet | source/extras/regex/regcomp.c:999-1048 | a set that is always empty, whatever its bits were used for before; the live sets are unchanged |
| CharSets.SetStore.FreeSet | source/extras/regex/regcomp.c:1054-1067 | the set is emptied, and its place recovered if it is the last; the others are unchanged |
| CharSets.SetStore.FreezeSet | source/extras/regex/regcomp.c:1079-1107 | the index returned is of a set with the members of the one just built, whatever the hashes are; the other sets are unchanged |
| CharSets.SetStore.Nch | source/extras/regex/regcomp.c:1132-1145 | the number of members |
| CharSets.SetStore.FirstCh | source/extras/regex/regcomp.c:1113-1126 | the least member |
| Pattern.RepeatLen | source/extras/regex/regcomp.c:911-977 | the operators a bounded repetition of an operand of L takes: to*L + 4*(to-from), from*L + 2 without a limit, L + 6 for {0,} |
| Pattern.RepeatMatches | source/extras/regex/regcomp.c:911-977 | the expression laid out for a repetition matches exactly the texts that are between from and to texts of the operand |
| Pattern.StarMatches | source/extras/regex/regcomp.c:333-339 | a bypassed loop matches any number of repetitions, none included |
| Pattern.SetNodeMatches | source/extras/regex/regcomp.c:644-648 | a set of one member laid out as a character, and any other as a set, match exactly the members |
| Pattern.TreeMatches | source/extras/regex/regcomp.c:191-380 | the expression laid out for a pattern matches exactly the texts the pattern means by its definition |
| Spelling.OpenCodeMore | source/extras/regex/regcomp.c:213-224 | another branch, patched as its bar is seen, extends the code of the alternation so far |
| Spelling.OpenCodeLast | source/extras/regex/regcomp.c:226-229 | after the tail-end fixups the code is that of the whole alternation |
| GroupNumbers.TreeNumbers | source/extras/regex/regcomp.c:253-267 | groups numbered by their left parentheses: no number occurs outside its group, and copying operands keeps each pair of parentheses together |
| Grammar.VanishesIff | source/extras/regex/regcomp.c:207-207 | a branch leaves no code just when every piece of it is repeated zero times |
| Emit.Parse.Emit | source/extras/regex/regcomp.c:1366-1386 | the operator is appended, the strip having been enlarged if need be, unless there has been an error |
| Emit.Parse.Insert | source/extras/regex/regcomp.c:1392-1426 | everything from pos on moves one place, and the operator put there reaches past the end |
| Emit.Parse.Astern | source/extras/regex/regcomp.c:63-63 | the operator appended points back to pos |
| Emit.Parse.Ahead | source/extras/regex/regcomp.c:1432-1444 | the operator at pos points forward to here; nothing else changes |
| Emit.Parse.Drop | source/extras/regex/regcomp.c:67-67 | the last n operators are gone |
| Emit.Parse.Dupl | source/extras/regex/regcomp.c:1338-1356 | a copy of the stretch stands at the end |
| Emit.Parse.Enlarge | source/extras/regex/regcomp.c:1450-1467 | there is the space asked for |
| Emit.Parse.SetError | source/extras/regex/regcomp.c:983-993 | the earliest error is kept, and there is nothing more to read |
| Emit.Parse.MakeLoop | source/extras/regex/regcomp.c:340-343 | the operand's code becomes that of its loop |
| Emit.Parse.MakeMaybe | source/extras/regex/regcomp.c:337-338 | the operand's code becomes that of its bypass |
| Emit.Parse.MakeOptional | source/extras/regex/regcomp.c:344-352 | with an OCH_ before it, the operand's code becomes that of (x&#124;), all five offsets right |
| Emit.Parse.Repeat | source/extras/regex/regcomp.c:911-977 | it terminates, and rewrites the operand's code into that of the bounded repetition, in each of the cases of the table |
| Brackets.PBSymbol | source/extras/regex/regcomp.c:772-786 | one character is read; an error just at the end of the pattern or at a collating symbol |
| Brackets.PBRange | source/extras/regex/regcomp.c:697-711 | the term read is one the grammar allows where it stands, and a term the grammar calls for is read to its end |
| Brackets.AddRange | source/extras/regex/regcomp.c:712-713 | the set gains exactly the characters of the range |
| Brackets.PBTerm | source/extras/regex/regcomp.c:655-715 | the set gains what the term read stands for, and a term that is due is read without error |
| Brackets.FirstTerm | source/extras/regex/regcomp.c:606-607 | a list of terms is well formed by its last term just when it is by its first |
| Brackets.PBLead | source/extras/regex/regcomp.c:600-605 | ^, ] and - at the head of a list are told apart from terms |
| Brackets.LeadDue | source/extras/regex/regcomp.c:600-605 | of a list that begins so, every reading has the same ^, ] or - |
| Brackets.PBTerms | source/extras/regex/regcomp.c:606-607 | terms up to the end of the list, all of them and no more |
| Brackets.PBEnd | source/extras/regex/regcomp.c:608-610 | the - a list may end with, and the bracket; an error just when the pattern ends |
| Brackets.PBList | source/extras/regex/regcomp.c:600-613 | the set filled is the one the list read describes; every well-formed list is read without error |
| Brackets.Invert | source/extras/regex/regcomp.c:628-641 | the set becomes its complement, without the newline under REG_NEWLINE |
| Brackets.FinishBracket | source/extras/regex/regcomp.c:644-648 | the code emitted is for exactly the set meant, and no set in use before is disturbed |
| Brackets.PBracket | source/extras/regex/regcomp.c:581-649 | a bracket expression read, and its code; every well-formed one is accepted |
| Brackets.NonNewline | source/extras/regex/regcomp.c:887-905 | the code for . under REG_NEWLINE is for every character but the newline |
| Repetition.PCount | source/extras/regex/regcomp.c:558-572 | the count read is the number its digits stand for, at most DUPMAX; every such number is read |
| Repetition.PUpper | source/extras/regex/regcomp.c:355-362 | the upper bound read, or the same, or none; every one in order is accepted |
| Repetition.PBounds | source/extras/regex/regcomp.c:353-362 | the bounds read are those written |
| Repetition.PBrace | source/extras/regex/regcomp.c:364-369 | the brace, without which there is always an error |
| Repetition.RepBegins | source/extras/regex/regcomp.c:323-328 | a repetition operator stands next just when one is due |
| Repetition.PRepeat | source/extras/regex/regcomp.c:353-370 | x{...} is read, and the operand's code replaced by that of the repetition |
| Repetition.PRep | source/extras/regex/regcomp.c:323-380 | the repetition read applies to the operand before it, is followed by no other, and every proper one is accepted |
| Progress.RepeatedDone | source/extras/regex/regcomp.c:237-380 | an atom compiled and then repeated is a piece compiled |
| Progress.OneMoreDone | source/extras/regex/regcomp.c:205-206 | pieces compiled one after the other are a branch compiled |
| Progress.NextDone | source/extras/regex/regcomp.c:212-223 | a branch compiled behind a bar extends the alternation |
| Progress.LastDone | source/extras/regex/regcomp.c:226-229 | the last branch compiled completes the alternation |
| Progress.GroupDone | source/extras/regex/regcomp.c:253-268 | an expression compiled between parentheses is a group compiled, under its number |
| Regcomp.AtomDue | source/extras/regex/regcomp.c:252-319 | which kind of atom is due can be told by its first character |
| Regcomp.PSimple | source/extras/regex/regcomp.c:252-320 | atoms that are not groups: what is read, its code, and that every one that is due is accepted |
| Regcomp.PGroup | source/extras/regex/regcomp.c:253-268 | a group: what is read, its code, its number, and that every one that is due is accepted |
| Regcomp.PEreExp | source/extras/regex/regcomp.c:237-380 | one piece: spelling, code, sets and group numbers all agree, and every one that is due is accepted |
| Regcomp.PBranch | source/extras/regex/regcomp.c:204-206 | a branch up to a bar, the stop character or the end |
| Regcomp.PAlternative | source/extras/regex/regcomp.c:203-210 | a branch that may not be empty |
| Regcomp.Bar | source/extras/regex/regcomp.c:212-223 | the offsets around a bar are those of the alternation so far and of a branch to come |
| Regcomp.Tail | source/extras/regex/regcomp.c:226-229 | the tail-end fixups leave the offsets of the last branch |
| Regcomp.PEre | source/extras/regex/regcomp.c:191-231 | what is read is spelled by a tree of the grammar, its code appended is that tree's, and every expression of the grammar is accepted |
| Unambiguous.SameTree | source/extras/regex/regcomp.c:191-380 | of one text there is at most one tree, but for numbers, and one place where it ends |
| Unambiguous.OneReading | source/extras/regex/regcomp.c:191-380 | any two readings of a pattern mean the same texts |
| Unambiguous.MeansByReading | source/extras/regex/regcomp.c:191-380 | the meaning of a pattern is that of any reading of it |
| Regex.Regcomp | source/extras/regex/regcomp.c:87-185 | patterns are accepted just when the grammar has a reading for them; the program is the code of that reading, with a must string that is sound and group numbers in order; what is returned passes for a compiled expression just when the pattern was accepted |
| Regex.OutcomeMeans | source/extras/regex/regexec.c:116-142 | executing a compiled pattern succeeds just when some stretch of the text is one the pattern means; the stretch reported is such a one, and none longer begins there |
| Regex.CompileAndExecute | source/extras/regex/regcomp.c:87-185 | compiling and executing together find just what the pattern means |
| Regex.WhereLooked | source/extras/regex/engine.c:84-96 | with REG_STARTEND the search is from the first element's start to its end, refused when that is before the start; otherwise from the beginning to the first NUL |
| Readings.ReadingFollows | source/extras/regex/regcomp.c:191-233 | a pattern is one, read the same, also where a right parenthesis or a bar follows |
| PatternLaws.RangeLaw | source/extras/regex/regcomp.c:656-712 | [a-b] means the characters from a to b and no others; [^a-b] all others, but for the newline under REG_NEWLINE |
| PatternLaws.ListLaw | source/extras/regex/regcomp.c:582-654 | a list means the characters in it, also a ] or a - at its head and a - at its end; one after ^ all others, but for the newline under REG_NEWLINE |
| PatternLaws.CharacterLaw | source/extras/regex/regcomp.c:250-318 | an ordinary character means itself, so does any character behind a backslash, and . means every character but, under REG_NEWLINE, the newline |
| PatternLaws.WordLaw | source/extras/regex/regcomp.c:250-318 | ordinary characters, and a { that no digit follows, mean themselves one after the other |
| PatternLaws.Refused | source/extras/regex/regcomp.c:191-380 | no pattern is empty or begins with a bar, a right parenthesis, a repetition operator or a { before a digit, and none repeats an ordinary character twice over |
| PatternLaws.ShortRepeats | source/extras/regex/regcomp.c:320-352 | x?, x+ and x* mean at most one x, at least one, and any number |
| PatternLaws.BoundedRepeats | source/extras/regex/regcomp.c:353-372 | x{m,n}, x{m} and x{m,}, with the numbers in decimal, are patterns just when the numbers are at most 255, in order, and not both 0, and mean that many times x |
| PatternLaws.BarLaw | source/extras/regex/regcomp.c:191-233 | for all patterns, p&#124;q means what p means and what q means |
| PatternLaws.GroupLaw | source/extras/regex/regcomp.c:258-274 | for every pattern p, (p) means what p means, (p)? that or nothing, and (p)+ and (p)* what is behind all repetitions but the last |
| GroupLaws.BothLaw | source/extras/regex/regcomp.c:191-233 | for all patterns, (p)(q) means a text of p and then one of q |
| GroupLaws.RepeatedGroup | source/extras/regex/engine.c:289-346 | for every pattern p and whatever is reported: the group of (p) has the whole match; that of (p)? has it just when p means it and is unset otherwise; that of (p)+ and (p)* has the last stretch in taking the longest text of p again and again until there is none or it is empty, and is unset only for an empty match when p does not mean the empty text |
| GroupLaws.EitherGroup | source/extras/regex/engine.c:347-383 | for all patterns p and q: of (p)&#124;(q) the first group has the whole match just when p means it, and the second is unset; otherwise the second has it and the first is unset |
| GroupLaws.BothGroups | source/extras/regex/engine.c:289-305 | for all patterns p and q: the groups of (p)(q) part the match in a text of p and one of q; the first is the longest it could be just when nowhere among the nodes of p a shorter stretch for one would let those behind it get farther |
| GroupLaws.LongestFirst | source/extras/regex/engine.c:289-305 | when p is made of branches, or is one piece repeated with *, + or ?, the first group of (p)(q) is always the longest it could be |
| GroupSpans.FarthestIff | source/extras/regex/engine.c:289-305 | a group ends as far on as it could just when no node within it, given less, would let the nodes behind it get farther |
| Counterexamples.LongestSubexpressionFails | source/extras/regex/regex.7:154-157 | of xy, the first group of (x?(xy)?)(y?) is said to have x for every program of the pattern, though it could have had xy |
| Crc32.ShiftXor | source/extras/zlib/crc32.c:20-37 | shifting is linear over exclusive-or |
| Crc32.PackAtOnce | source/extras/zlib/crc32.c:28-37 | up to 32 bits put in one by one, or all at once before the shifts, leave the same register |
| Crc32.ByteAtOnce | source/extras/zlib/crc32.c:55-58 | a byte put in bit by bit, or at once before eight shifts |
| Crc32.TableStep | source/extras/zlib/crc32.c:134-134 | a table entry and a shift by eight are the register's step for one byte |
| Crc32.CrcAppend | source/extras/zlib/crc32.c:139-160 | crc32(crc32(c, A), B) = crc32(c, A + B) |
| Crc32.RegisterInjective | source/extras/zlib/crc32.c:28-37 | different registers stay different whatever is put into both |
| Crc32.BurstDetected | source/extras/zlib/crc32.c:28-37 | inputs that differ within 32 bits in a row never leave the same register, whatever comes before and after |
| Crc32.BytesDetected | source/extras/zlib/crc32.c:139-160 | buffers of one length that differ within four bytes in a row, so also in one byte, never have the same checksum |
| Crc32.Residue | source/extras/zlib/crc32.c:139-160 | a buffer followed by its own checksum, lowest byte first, has the checksum 0x2144df1c, whatever the buffer and the start |
| Crc32.LeadingZero | source/extras/zlib/crc32.c:139-160 | a zero byte in front changes the checksum of every buffer, but for the start value 0xffffffff, for which it changes none |
| Crc32.PatternIsPoly | source/extras/zlib/crc32.c:45-51 | the exclusive-or pattern made from the powers is 0xedb88320 |
| Crc32.Tables.MakeCrcTable | source/extras/zlib/crc32.c:40-61 | the table holds, for every byte, the register after eight shifts |
| Crc32.Tables.Do1 | source/extras/zlib/crc32.c:134-134 | one step of the loop is the register's step for one byte |
| Crc32.Tables.Do8 | source/extras/zlib/crc32.c:135-137 | the unrolled step is that for eight bytes |
| Crc32.Tables.Crc32 | source/extras/zlib/crc32.c:139-160 | the table-driven checksum is that of the bit-serial register, inverted before and after; 0 for no buffer |
| Adler32.DefinedAppend | source/extras/zlib/adler32.c:21-46 | the definition, reduced after every byte, composes over concatenation |
| Adler32.AdlerAppend | source/extras/zlib/adler32.c:21-46 | checksums compose over concatenation, from any start value |
| Adler32.ClosedForm | source/extras/zlib/adler32.c:21-46 | from 1, the low half is 1 and the sum of the bytes, the high half their number and the sum of each byte times the number of bytes from it on, modulo 65521 |
| Adler32.RawReduced | source/extras/zlib/adler32.c:42-43 | reducing once at the end comes to the same as reducing after every byte |
| Adler32.ChunkFits | source/extras/zlib/adler32.c:9-10 | NMAX bytes never make the sums exceed 32 bits, from any two values of 16 bits |
| Adler32.LargestChunk | source/extras/zlib/adler32.c:9-10 | a chunk length is safe from all reduced sums just when it is at most NMAX |
| Adler32.Do16 | source/extras/zlib/adler32.c:12-16 | sixteen bytes added unrolled are sixteen bytes added |
| Adler32.Chunk | source/extras/zlib/adler32.c:31-41 | one chunk, sixteen at a time and then singly, without overflow |
| Adler32.Adler32 | source/extras/zlib/adler32.c:21-46 | for every buffer and start value, the checksum by the definition; 1 for no buffer |
| Symbols.Compare | source/config/makedepend/parse.c:348-375 | the inline comparison decides equality and order of names |
| Symbols.Inclist.Slookup | source/config/makedepend/parse.c:525-567 | a name is found just when the table defines it, at its place |
| Symbols.Inclist.MakeSpace | source/config/makedepend/parse.c:329-345 | there is space for one definition more, at whatever number of definitions, and the table is unchanged |
| Symbols.Inclist.Search | source/config/makedepend/parse.c:346-383 | when the name is not there, below is the place of its predecessor |
| Symbols.Inclist.Insert | source/config/makedepend/parse.c:406-422 | later definitions move up, within the space there is, and the table stays sorted without duplicates |
| Symbols.Inclist.Define2 | source/config/makedepend/parse.c:323-422 | the table stands for the old map with the name overridden, and definitions of other names are untouched |
| Symbols.Inclist.Undefine | source/config/makedepend/parse.c:627-632 | the name stands for nothing from now on |
| Symbols.AllMerged | source/config/makedepend/parse.c:596-618 | the merge of two sorted tables is sorted and stands for the second's definitions over the first's |
| Symbols.MergeArrays | source/config/makedepend/parse.c:596-618 | both tables are merged in order, within the space |
| Symbols.Merge2Defines | source/config/makedepend/parse.c:568-625 | the first file's table becomes its own definitions overridden by the second's, if that has been read through, and keeps its space a multiple of SYMTABINC |
| Conditionals.Reader.Gobble | source/config/makedepend/parse.c:42-96 | a group and all nested in it are skipped, up to the line that ends it, acting on nothing |
| Conditionals.Reader.SkipTail | source/config/makedepend/parse.c:55-59 | the other groups of a section are skipped, and its #endif |
| Conditionals.Reader.DoIf | source/config/makedepend/parse.c:643-651 | behind a true condition one group is processed and the rest of the section skipped |
| Conditionals.Reader.DoIfFalse | source/config/makedepend/parse.c:653-671 | behind a false one the next group whose condition is true is processed, or the #else group, or none |
| Conditionals.Reader.FindIncludes | source/config/makedepend/parse.c:634-782 | for every group at every depth: what the rules select is acted on in order, conditions being evaluated with the definitions of that moment, and nothing else |
| Conditionals.Grouped | source/config/makedepend/parse.c:42-96 | every file whose conditionals balance is made of groups and sections |
| Conditionals.LinesBalanced | source/config/makedepend/parse.c:42-96 | and every file made of them balances |
| Conditionals.OneGrouping | source/config/makedepend/parse.c:42-96 | in one way only |
| Conditionals.SelectsOne | source/config/makedepend/parse.c:634-782 | the rules leave no choice of what is acted on |
| Conditionals.ReadThrough | source/config/makedepend/parse.c:634-782 | a balanced file is read to its end, and leaves the definitions and the lines acted on that the rules give |
| ConditionalLaws.IncludeGuard | source/config/makedepend/parse.c:634-782 | of a file in an include guard the define and the body are acted on when it is first read, and nothing when it is read again |
| ConditionalLaws.TestedDefined | source/config/makedepend/parse.c:674-705 | behind a define of the name, #ifdef selects its own lines and #ifndef those of the #else |
| ConditionalLaws.TestedUndefined | source/config/makedepend/parse.c:674-705 | behind an #undef of the name it is the other way around |
| ConditionalLaws.TestedAbsent | source/config/makedepend/parse.c:674-705 | so it is when the table does not define the name |
| ConditionalLaws.OneGroupOnly | source/config/makedepend/parse.c:645-705 | of a section with any number of #elif exactly the lines of the first group with a true condition are acted on, those of the #else just when there is none, and if there is no #else, none |
| ConditionalLaws.Balances | source/config/makedepend/parse.c:634-782 | such sections balance, so there is always a way they are read |
| IfParser.SkipSpace | source/config/makedepend/ifparser.c:70-70 | the pointer stops at the first character that is no space |
| IfParser.ReadDigits | source/config/makedepend/ifparser.c:151-171 | digits are read to the first that is none of the base, and make their value |
| IfParser.ParseNumber | source/config/makedepend/ifparser.c:130-176 | decimal, octal and hexadecimal numbers with their qualifiers, and an error if there is no digit |
| IfParser.NumberRead | source/config/makedepend/ifparser.c:130-176 | a number written in any of the bases is read to its end and to its value |
| IfParser.DefinedName | source/config/makedepend/ifparser.c:268-284 | defined, with parentheses or without, is applied to the whole name |
| IfParser.OperatorSeen | source/config/makedepend/ifparser.c:307-540 | every operator is taken for itself by its own level, and for nothing by the levels above |
| IfParser.Lift | source/config/makedepend/ifparser.c:307-562 | levels that find none of their operators pass on the value from above |
| IfParser.RoundTrip | source/config/makedepend/ifparser.c:207-573 | at every level, an expression printed for that level is read back to its value, whatever may follow it |
| IfParser.ParsesBack | source/config/makedepend/ifparser.c:566-573 | every expression, printed with the parentheses the right-recursive levels need and any spaces, is read to its end and to its value |
| IfParser.GroupsToTheRight | source/config/makedepend/ifparser.c:335-355 | without parentheses operators of one level group to the right: 1-1-1 is 1 |
| Grouping.ParsesRegrouped | source/config/makedepend/ifparser.c:300-573 | every expression written with the parentheses C needs is read to its end, and to the value it has with all chains of one level grouped to the right |
| Grouping.RegroupedSame | source/config/makedepend/ifparser.c:300-573 | that is the grouping of C just when no operation has one of its own level for its left operand |
| Grouping.HarmlessIff | source/config/makedepend/ifparser.c:300-540 | (a o b) p c and a o (b p c) have the same value for all operands just for + before + or -, and for *, &, ^, the bar, && and the double bar before themselves |
| Grouping.AgreesWithC | source/config/makedepend/ifparser.c:300-573 | an expression with no other chains is read to its value in C |
| Grouping.AgreesIff | source/config/makedepend/ifparser.c:300-573 | x o y p z, for operators of one level, is read to its value in C whatever the names stand for just when o and p are such a pair |
| Grouping.TakenForDefined | source/config/makedepend/ifparser.c:268-284 | of a name that is taken for the operator, what follows the word is what is asked about; the word alone is an error |
| Grouping.DefinedUnderscore | source/config/makedepend/ifparser.c:268-284 | defined_x is taken for a question about _x |
| Grouping.NameReadIff | source/config/makedepend/ifparser.c:268-300 | a name is read to its value, whatever it stands for, just when it is not taken for the operator |
| OperatorLaws.LogicLaws | source/config/makedepend/ifparser.c:503-562 | as texts that are read: x && y, x &#124;&#124; y and !x are 0 or 1 by whether their operands are 0, with 0 and 1 as neutral or deciding operands; 1 ? x : y is x, 0 ? x : y is y |
| OperatorLaws.OrderLaws | source/config/makedepend/ifparser.c:385-443 | as texts that are read: < is a strict order with x < x + 1, and the other comparisons are what is said with it |
| OperatorLaws.LessIff | source/config/makedepend/ifparser.c:335-356 | as texts that are read: + and - are inverse, x < y just when y - x is positive, and ~x + 1 is -x |
| OperatorLaws.ProductLaws | source/config/makedepend/ifparser.c:307-333 | as texts that are read: x * 0 is 0, and x * (y + 1) is x * y + x |
| OperatorLaws.DivisionLaws | source/config/makedepend/ifparser.c:307-333 | as texts that are read: x is (x / y) * y + x % y, and x % y is smaller than y and has the sign of x |
| OperatorLaws.ShiftLaws | source/config/makedepend/ifparser.c:358-383 | as texts that are read: x << 1 is x + x, shifting twice is shifting by the sum, and x >> n is the greatest number that is not more than x when shifted back |
| OperatorLaws.BitLaws | source/config/makedepend/ifparser.c:445-501 | as texts that are read: x & -1 is x, x & 0 is 0, & goes bit by bit, (x & y) + (x &#124; y) is x + y, and x ^ y is (x &#124; y) - (x & y) |
| OperatorLaws.NumberLaws | source/config/makedepend/ifparser.c:130-176 | as texts that are read: one digit more makes a number the base times as much, and the digit; letters in either case |
| PswDict.Hash | source/config/pswrap/pswdict.c:92-99 | a bucket for every name, also where the sum of its characters is negative |
| PswDict.Dict.constructor | source/config/pswrap/pswdict.c:78-84 | an empty dictionary |
| PswDict.Dict.Probe | source/config/pswrap/pswdict.c:101-108 | the entry of the name, and none just when it has none |
| PswDict.Dict.Lookup | source/config/pswrap/pswdict.c:121-128 | the value a map would give, -1 for no value |
| PswDict.Dict.Enter | source/config/pswrap/pswdict.c:130-146 | the map with one name overridden, chains and buckets in order; 0 or -1 by whether it was there |
| PswString.WithinIff | source/config/pswrap/pswstring.c:55-60 | walking over a text as the source does, one character, two backslashes, or a backslash and three more at a time, ends at its NUL just when the text is within |
| PswString.UnitsAre | source/config/pswrap/pswstring.c:50-62 | a text within is made up of pieces of those forms |
| PswString.StringLength | source/config/pswrap/pswstring.c:50-62 | the number of pieces of every text within, which for a text as the scanner leaves strings is the number of bytes it stands for |
| PswString.OutputStringChars | source/config/pswrap/pswstring.c:64-114 | for every text within, the constant of each piece in order; for a text as the scanner leaves strings, as many constants as bytes, each of the byte's value in C |
| PswString.OctalRoundTrip | source/config/pswrap/pswstring.c:50-114 | every byte has a spelling of a backslash and three octal digits, which stands for it |
| PswString.HexStringLength | source/config/pswrap/pswstring.c:116-120 | the number of bytes the digits stand for |
| PswString.OutputHexStringChars | source/config/pswrap/pswstring.c:122-140 | as many constants as bytes, each of the byte's value |
| PswString.HexRoundTrip | source/config/pswrap/pswstring.c:122-140 | bytes written with two digits each, of either case, are the bytes the digits stand for |
| PswLayout.DecodesBody | source/config/pswrap/psw.c:847-996 | in a layout where bodies, strings and names are placed, the records of a body say what its tokens mean, to any depth |
| PswLayout.RoundTrip | source/config/pswrap/psw.c:847-996 | if bodies, strings and names are placed, following counts and offsets from the top-level records gives back the whole tree |
| PswShare.DecodesIff | source/config/pswrap/psw.c:734-762 | in what the first pass lays out, following counts and offsets gives back the whole tree just when, for every literal, its bytes are those from the entry of its text on |
| PswShare.ConsistentShares | source/config/pswrap/psw.c:734-762 | that is so where tokens with the same text stand for the same bytes |
| PswShare.CollisionFails | source/config/pswrap/psw.c:734-762 | it is not so for (41) <41>: one byte is laid out for both, and nothing can be read back |
| PswShare.CollisionShares | source/config/pswrap/psw.c:734-762 | it is so for <33> (33), though the two stand for different bytes |
| PswShare.TwiceIff | source/config/pswrap/psw.c:734-762 | a text that comes twice behind n others, all different, is laid out once just when n is at most 256 |
| PswWrap.Wrap.VisitBody | source/config/pswrap/psw.c:624-710 | one body: fields, tags and literals of its tokens in order, and its composite tokens onto the worklist |
| PswWrap.Wrap.VisitAll | source/config/pswrap/psw.c:613-713 | the last-in first-out worklist places every body where its records will stand |
| PswWrap.Wrap.PlaceStrings | source/config/pswrap/psw.c:734-762 | each string's address is the entry of its text, the next free place for one not known to the dictionary, for every list, also when the dictionary is full |
| PswWrap.Wrap.CheckSize | source/config/pswrap/psw.c:446-589 | large just when the size the second run will find exceeds 0xffff |
| PswWrap.Wrap.Build | source/config/pswrap/psw.c:591-790 | fields and lengths of all objects, the total size, every body and name in its place, and every string at the entry of its text |
| PswWrap.Wrap.ConstructStatics | source/config/pswrap/psw.c:998-1104 | the records of all tokens in the order of their fields, and the strings in the order of theirs |
| PswWrap.Generate | source/config/pswrap/psw.c:1850-1853 | both passes list the same objects in the same order, the sizes agree, and what is written decodes to the tree just when every literal's bytes are those from its entry on |
| PswFlatten.FlattenAppend | source/config/pswrap/psw.c:1314-1368 | tokens spliced into a list are flattened as they would be on their own |
| PswFlatten.Flattens | source/config/pswrap/psw.c:1314-1368 | every array left, at any depth, holds literals only, and a second run changes nothing |
| PswFlatten.TakenApartIff | source/config/pswrap/psw.c:1342-1348 | flattening leaves no array at all just when something is executed in each, at any depth |
| PswFlatten.ProcsFlatIff | source/config/pswrap/psw.c:1345-1348 | no array is left within procedures, as the comment says, just when something is executed in each that is in one |
| PswFlatten.LiteralArrayStays | source/config/pswrap/psw.c:1345-1348 | { [1] } stays as it is |
| PswFlatten.Regroups | source/config/pswrap/psw.c:1314-1368 | matching the inserted brackets gives back every token in order and every array |
| PswSplice.AllLiteralTokens | source/config/pswrap/psw.c:1282-1312 | walking the linked tokens decides whether any of them, at any depth of arrays, is executed |
| PswSplice.Splice | source/config/pswrap/psw.c:1321-1341 | relinking an array's nodes in memory makes its tokens part of the list between two brackets; no other node is touched |
| PswSplice.FlattenSomeArrays | source/config/pswrap/psw.c:1314-1368 | in memory, the nodes of the list and new ones for closing brackets hold exactly what the token tree is flattened to; all other nodes are as they were |
| PswSplice.AlwaysRoom | source/config/pswrap/psw.c:1314-1368 | for every memory there are numbers free for the new nodes, so the method is not restricted by asking for them |
| PswEmit.FlattenedDistinct | source/config/pswrap/psw.c:1314-1368 | tokens in different places of memory are so after flattening |
| PswEmit.AllDistinct | source/config/pswrap/psw.c:591-713 | the passes meet every token of a body once |
| PswEmit.FlatAtRest | source/config/pswrap/psw.c:1282-1368 | by the meaning of the records: after flattening no array has anything in it, at any depth of arrays, that is executed; and nothing is changed just when it was so before |
| PswEmit.EmitBody | source/config/pswrap/psw.c:1826-1853 | in memory: the list is flattened by relinking, its size checked, and both passes go over what it then holds; large just when there are more than 255 tokens or the size found exceeds 0xffff; what is written decodes to the flattened tree just when its literals stand at their entries; the brackets give back the tree there was; and nothing is written for an empty body |

## Left out

Regular expressions:

- Anchors, word boundaries, character classes, equivalence classes and collating symbols: a pattern with one of them is refused by the model, with the error OUTSIDE.
- Back references and basic regular expressions, plain strings (REG_NOSPEC) and REG_ICASE: extra surface for the same properties, or without a termination measure.
- Allocation failure, regerror, regfree, categorize, pluscount, stripsnug and the debugging printers.
- The packing of operator and operand into one word, and the limit of 2^26 on operands: operators are pairs, operands unbounded.
- The strip and the pattern as memory: they are sequences held in fields of the parser, so that moving and patching are assignments; the space allotted is tracked beside them.
- Signed characters: a character is its unsigned code below 256, so ranges that would cross the sign are not covered.
- The fixed list re-read by nonnewline: the set it describes is filled directly.
- SearchProperties.ColdSafeIsLeftmost: gives a condition on the strip alone that is sufficient, not necessary; the exact ones are those of SearchProperties.LeftmostIff, for a text, and SearchProperties.AlwaysLeftmostIff, for all.
- GroupLaws.LongestFirst: gives a condition on the pattern alone that is sufficient, not necessary; the exact one, for a text, is that of GroupLaws.BothGroups.
- GroupLaws.RepeatedGroup: a group repeated with bounds is laid out as several copies, and which of them is reported is not stated.
- Regex.Regcomp: which error a refused pattern gets is not stated, only that it gets one.
- Emit.Parse.Insert: pbegin and pend, which back references alone use, are not kept.
- Brackets.PBSymbol: collating symbols are refused.
- Brackets.PBTerm: character classes and equivalence classes are refused.
- Brackets.PBracket: word boundaries are refused, and REG_ICASE is not modelled.
- Regcomp.PSimple: anchors are refused.
- Regcomp.PEreExp: anchors, and repetition of them, are refused.
- Engine.Boundary: the flags for beginning and end of line have no effect on strips without anchors, and nothing else is stated of them.

makedepend:

- Reading files, comments and continuation lines, the search for include files and the chain of included files when a name is looked up.
- The types IFGUESSFALSE and ELIFGUESSFALSE, which zero_value never returns.
- Conditionals.ReadThrough: lines that include files are lines acted on, and no more.
- Conditionals.Reader.FindIncludes: the same; and of files whose conditionals do not balance it states no more than that reading them ends.
- Symbols.Merge2Defines: definitions are shared between the tables after a merge, as in the source; the map is that of the moment.
- Macros with arguments, assertions and character constants in expressions: the model's parser fails on them.
- IfParser.ParsesBack: the same limits as IfParser.RoundTrip.
- IfParser.GroupsToTheRight: one text only; for all expressions it is Grouping.ParsesRegrouped.
- IfParser.RoundTrip: values are unbounded integers; overflow of long, and shifts and divisions C does not define, are not modelled.
- Parsing of macro parameters in define, and the characters of names beyond ASCII.

pswrap:

- Formal parameters, result tags, name tags assigned at run time, fixing of offsets at run time, and the text of the C file around the records.
- PswString.StringLength: a literal name such as /a\b, which the scanner lets through, is not within: it is read past its end, and what is found there is not modelled.
- PswString.OutputStringChars: the same.
- PswWrap.Generate: named formals are not modelled, and literal names with a backslash that begins neither a pair of them nor an octal byte have no meaning in the layout.
- PswWrap.Wrap.VisitBody: tokens with named formals are not modelled.
- PswWrap.Wrap.CheckSize: nor are the sizes added for them.
- PswWrap.Wrap.Build: nor their fields.
- PswWrap.Wrap.ConstructStatics: nor their records.
- PswLayout.RoundTrip: one direction; the other is that of PswShare.DecodesIff.
- PswEmit.EmitBody: what is added for results, and char * arguments, which make a wrap large, are not modelled.
- The size of the header, which CheckSize ignores too.
- PswSplice.FlattenSomeArrays: the source lines noted in tokens are not modelled, nor inSquiggles, which has no effect.
- PswWrap.Wrap.PlaceStrings: tokens are told apart by a number for their place in memory, and the fields the passes fill in are maps from that number.
- Removal from dictionaries, and atoms; sums of characters that overflow an int.

zlib:

- The table compiled in when it is not made at run time is not compared with the one made.
- Crc32.Tables.Crc32: words are 32 bits wide, as results are; higher bits of a longer unsigned long are not modelled.
- Adler32.ClosedForm: fixes the modulus; that it is the largest prime below 65536 is not proved.
