# Verification of tclrs

A model of the parts of tclrs whose correctness is an argument rather than a
transcription, with that argument proved by Dafny 4.11:

```
dafny verify dfyconfig.toml
```

## What is modelled

**The advanced-regular-expression engine** (`src/are_bt.rs`, modules `Are*`). A
pattern tree denotes a relation between positions of a subject (`AreSyntax`). The
compiler turns a tree into instructions (`AreProgram` says what its code is,
`AreCompiler` produces it), and `AreSearch` runs them: a stack of frames, captures
edited in place under an undo log, a budget, and a table of the pairs already
followed. The main results are that the search finds exactly the ends the tree
denotes, although the table prunes pairs that were reached with other loop marks
(`AreFrontier`, `AreSteps`); that `Exec` has one answer, a function of the tree and the
subject alone, which is the leftmost match with the length its preference prescribes
although one table serves every start; that dissection (`AreDissect`, `AreCiter`) is
exactly the rules of `AreDissection`, ends, and leaves the captures that `AreRules`
prescribes for the tree (`AreCompleteness`, `AreCaptures`), which are those of a real
parse (`AreParse`), nested and ordered; and that a leftmost-first matcher finds the
same match on every tree `risky` calls safe but one kind (`AreFastPath`). `AreLaws`
says what that comes to for alternations, quantifiers, concatenations and their groups.

**List and dictionary syntax** (`src/assoc.rs`, modules `TclList`, `TclQuote`,
`TclForm`, `TclDict`). Splitting and quoting as loops proved against functions, the
round trip over all lists of strings, the form of each element said by what a reader
makes of it, dictionaries with their index, and the laws of writing and removing down
a path of keys through nested dictionaries kept as text.

**Text encodings and channels** (`src/cmd_encoding.rs`, `src/cmd_channel.rs`, modules
`Text*`, `TclChannel`). What a byte string stands for under the strict profile is one
function, `ReadAll`; the one-pass decoders and the measure of an incomplete tail are
proved against it. A channel's lines and characters are a function of its input
alone, whatever sizes the device transfers, and what it has written is on the device
or in its buffer.

**Calendar arithmetic** (`src/cmd_clock.rs`, module `TclClock`) and **byte formats**
(`src/cmd_binary.rs`, modules `TclBinary`, `TclScan`, `TclBase64`,
`TclUuencode`).

## Where the code does less than it says

Each of these is proved, with the exact condition under which the code does meet the
property.

- `citer` with a reluctant body and a limit below the span backs up without trying a
  longer last iteration (src/are_bt.rs:1568-1570): `AreBounded.BoundedReluctantFails`
  shows the spans lost and `AreBounded.PrescribedIsLost` that the engine answers another,
  `AreCompleteness.DividesExactly` says which divisions it finds and
  `AreExec.PrescribedIsAnswer` when the answer is the prescribed one.
- One table of visited pairs serves every start (src/are_bt.rs:1189), so when nothing
  from a start can be taken apart its ends are lost to later starts: `AreExec.Answer` is
  exactly what is answered, and `AreBounded.AnswerIsCutShort` shows a longer match lost.
- `risky` calls `{m,m}?` safe (src/are_bt.rs:445-446) though `pref` makes it prefer its
  shortest match: `AreFastPath.ReluctantCountDisagrees` and `AreFastPath.FastPathAgrees`.
- `incomplete_tail` does not withhold a lone high surrogate of cesu-8
  (src/cmd_encoding.rs:690-732): `TextDecode.StreamDecode` fails exactly on buffers that
  end within the second half of a pair, or just before it, as `TextDecode.DividedPair` has.
- A carriage return at the end of CRLF input is dropped (src/cmd_channel.rs:757-760):
  `TclChannel.CrlfRoundTrip`.
- Line buffering, said to send a text that completes a line (src/cmd_channel.rs:955-957),
  looks for a line feed after translation, and with `cr` there is none:
  `TclChannel.FeedsOut`.
- Strict base64 decoding, said to refuse a block cut short (src/cmd_binary.rs:1026-1029),
  refuses it only when one character of it is left (src/cmd_binary.rs:1041-1050):
  `TclBase64.Strict` is exactly what it takes, as `TclBase64.StrictWithoutPadding` says
  of text without padding.
- Strict uuencode decoding refuses what the encoder writes, with newlines between lines,
  unless the data is a whole number of groups of three bytes
  (src/cmd_binary.rs:1129-1137): `TclUuencode.DecodeOfEncode`.
- `weekday_on_or_before` uses a truncated remainder: `TclClock.WeekdayIsOnOrBefore`, and
  `TclClock.WeekdayCanBeAfter` for a day it is wrong about.
- So does the assembly of a day from its ISO week (src/cmd_clock.rs:2283-2307), which
  before Julian day 0 gives the day back only where `TclClock.IsoWeekRebuilds` says.

## Model

| member | source | states |
|---|---|---|
| AreSyntax.NotNullableConsumes | src/are_bt.rs:505-515 | a tree whose `nullable` is false never matches the empty string, so its loop needs no `Mark` and `Check` |
| AreSyntax.NoPrefIsUnique | src/are_bt.rs:477-503 | a tree whose `pref` is `None` matches at most one length from a position, which is why the search may stop at its first match |
| AreCharSet.New | src/are_bt.rs:85-98 | sorting and merging give disjoint ranges in order that cover exactly the characters written; of ranges whose bounds are in order, any other being refused at src/are.rs:464-466 |
| AreCharSet.Contains | src/are_bt.rs:100-104 | bisection answers membership in the set, negation included |
| AreProgram.CodesFrame | src/are_bt.rs:569-650 | code that has been emitted stays the code of its tree while the program, the sets and the sub-programs grow |
| AreCompiler.Compiler.Emit | src/are_bt.rs:569-646 | what is appended is the code of the tree, jumps filled in, loop slots not shared, earlier sub-programs untouched; refused exactly when the counters say the pattern is too complex |
| AreCompiler.AcceptedIsShort | src/are_bt.rs:569-573 | a pattern that is not refused compiles to at most six instructions for each of the hundred thousand nodes it may come to |
| AreCompiler.Compiler.EmitAlt | src/are_bt.rs:608-631 | every branch is tried in order and each but the last ends in a jump to the common end |
| AreCompiler.Compiler.EmitStar | src/are_bt.rs:667-686 | the loop of an unbounded repetition, guarded against empty iterations exactly when its body is nullable |
| AreCompiler.Compiler.EmitOptions | src/are_bt.rs:687-702 | one split for each optional copy, all leaving for the same end, in greedy or reluctant order |
| AreCompiler.Compiler.Program | src/are_bt.rs:705-713 | the program of a run of siblings is their code in order, then `Match` |
| AreTidy.CodeIsTidy | src/are_bt.rs:569-702 | in compiled code jumps stay inside, each loop slot has one `Mark`, and a `Check` is followed by the jump back to the top of its own loop |
| AreSteps.StepRest | src/are_bt.rs:1027-1149 | no instruction leads to a position from which an end could be reached that could not be reached before: steps keep the meaning of the rest of the tree |
| AreSteps.RestEnter | src/are_bt.rs:569-646 | entering the code of a tree can only lead to ends the tree denotes |
| AreSteps.Complete | src/are_bt.rs:1027-1149 | a set of pairs closed under steps, but for a `Check` whose loop has been at that position, holds every end the tree denotes |
| AreFrontier.FrontierStep | src/are_bt.rs:1053-1143 | following one instruction keeps every pair followed so far covered: each successor is followed, waiting on the stack, or excused by a loop already entered there |
| AreFrontier.Prune | src/are_bt.rs:1055-1059 | dropping a pair the table has already marked loses nothing, though it was reached with other marks |
| AreFrontier.LogStep | src/are_bt.rs:1041-1047 | whatever a step does to the captures, undoing the stack gives back what they were when the search began |
| AreFrontier.MarkSlot | src/are_bt.rs:1084-1093 | the slot a `Check` reads says where its own loop was last entered on this path |
| AreVisited.Visited.Insert | src/are_bt.rs:906-918 | a pair is marked, whether in the bit table or the hash set, and the answer is whether it was new |
| AreVisited.PairsFit | src/are_bt.rs:883-918 | no more pairs can be marked than instructions times positions |
| AreSearch.FinishedIsComplete | src/are_bt.rs:1027-1149 | a search whose stack has run empty has followed the `Match` of every end the trees denote |
| AreSearch.MatchIsSound | src/are_bt.rs:1139-1144 | every `Match` that is followed is an end the trees denote |
| AreSearch.Engine.Dispatch | src/are_bt.rs:1060-1138 | one instruction: its effect on the captures and the stack, and where it leads; look-ahead runs the sub-program from captures of its own |
| AreSearch.Engine.Follow | src/are_bt.rs:1053-1147 | one path followed to its end keeps the invariant of the search: every pair followed is covered, the log still undoes to the captures given, every end found is denoted |
| AreSearch.Engine.Explore | src/are_bt.rs:1027-1149 | finds exactly the denoted ends not already marked, restores the captures, takes at most twice the pairs newly marked plus one steps when there is no look-ahead, and gives up only with the budget spent |
| AreEnds.Ends | src/are_bt.rs:1153-1179 | the answer is exactly the ends the trees denote, ascending, whatever the table pruned |
| ArePlan.PlanIsCoherent | src/are_bt.rs:749-841 | every part of a plan matches exactly what the part of the pattern it stands for denotes, runs of plain elements merged |
| ArePlan.Planner.MakePlan | src/are_bt.rs:749-841 | builds the plan of the tree: units where nothing is captured, one program for each part |
| ArePlan.Planner.PlanElems | src/are_bt.rs:779-797 | adjacent plain items become one element, every other item an element of its own |
| ArePlan.Planner.FlushRun | src/are_bt.rs:844-870 | a run of plain items is one unit, preferring what the first of them with a preference prefers |
| AreDissection.ZapClears | src/are_bt.rs:1254-1267 | exactly the groups inside the plan are forgotten |
| AreDissection.CapturedTouches | src/are_bt.rs:1304-1366 | dissection changes the groups inside the plan and nothing else |
| AreDissect.Dissect.Ends | src/are_bt.rs:1278-1289 | the cached answer is right whatever the captures were when it was computed |
| AreDissect.Dissect.Go | src/are_bt.rs:1304-1366 | succeeds exactly on the spans the rules of dissection allow, leaves the captures they prescribe, and otherwise changes nothing |
| AreDissect.Dissect.Sequence | src/are_bt.rs:1369-1399 | each element takes the longest end, or the shortest when it prefers that, which lets the rest dissect |
| AreDissect.Dissect.RestExact | src/are_bt.rs:1401-1422 | whether the remaining elements can match exactly the rest of the span |
| AreDissect.Dissect.StarEnds | src/are_bt.rs:1426-1451 | exactly the positions so many iterations can reach, although empty ones are skipped |
| AreDissect.Dissect.LastCopy | src/are_bt.rs:1344-1365 | an iteration with a minimum dissects exactly its last copy, started at the preferred position that works |
| AreDissect.Dissect.Citer | src/are_bt.rs:1511-1623 | ends with the preferred division exactly when there is one: the search of end points terminates and is exhaustive |
| AreDissect.Dissect.Turn | src/are_bt.rs:1541-1620 | one pass of the search lowers the padded vector of end points, or leaves it and goes a level deeper; `k` stays in range |
| AreDissect.Dissect.BackUp | src/are_bt.rs:1600-1619 | backing up reaches the next less preferred end point not ruled out, or has ruled out every division |
| AreDissect.Dissect.Verify | src/are_bt.rs:1581-1594 | dissects the iterations chosen, each from captures that hold nothing of the body |
| AreCiter.Walk | src/are_bt.rs:1581-1594 | end points that all dissect and reach the end are the lexicographically preferred division |
| AreCiter.GiveUp | src/are_bt.rs:1559-1562 | a level with nothing left rules out the end point below it; at the bottom there is no division |
| AreCiter.BackLowers | src/are_bt.rs:1600-1619 | replacing an end point by a less preferred one lowers the end-point vector lexicographically |
| AreCompleteness.GoodIsDissects | src/are_bt.rs:1304-1623 | a plan takes a span apart exactly when the rules for its tree do, which speak of the tree and the subject alone |
| AreCompleteness.DividesExactly | src/are_bt.rs:1511-1623 | a division is found if and only if the rules have one: as many iterations as are allowed, none empty, each taken apart, and, when a reluctant body leaves none to spare, the last the shortest there |
| AreCompleteness.MatchedDissects | src/are_bt.rs:1304-1623 | any span a tree matches can be taken apart, unless an optional iteration with a reluctant body is limited below the subject's length |
| AreBounded.BoundedReluctantFails | src/are_bt.rs:1541-1570 | `([ab]c??d??){0,2}` matches `[0,4)`, `[0,3)` and `[0,2)` of `abcde` and only the last can be taken apart |
| AreBounded.PrescribedIsLost | src/are_bt.rs:1182-1239 | that pattern answers `[0,2)` where `[0,4)` is prescribed |
| AreBounded.AnswerIsCutShort | src/are_bt.rs:1189-1239 | `([ab]c??d??){0,2}e|b` on `abcde` answers `[1,2)` though `[1,5)` is longer, matches and can be taken apart: 5 has ended a match from 0 |
| AreRules.FirstChoiceDecides | src/are_bt.rs:477-503 | what a tree prefers is what the first of its choices does in the order written: an alternation or a greedy quantifier the longest, a reluctant one the shortest, and without a choice nothing |
| AreRules.LeavesParses | src/are_bt.rs:1304-1623 | captures that follow the rules are those of a real parse of the span |
| AreRules.LeavesIsUnique | src/are_bt.rs:1304-1623 | the rules leave one outcome of taking a span apart, whatever is nested in what |
| AreRules.GroupTakesItsFill | src/are_bt.rs:1369-1399 | a group that is an item of a concatenation, at any depth, ends at the latest of all positions that let what follows it be taken apart, or at the earliest if its first choice is reluctant |
| AreRules.RunTakesItsFill | src/are_bt.rs:844-870 | a group after items that capture nothing starts at the latest position they and what follows allow, or the earliest if the first choice among them is reluctant |
| AreRules.LastCopyHolds | src/are_bt.rs:1344-1365 | a group repeated at least once holds its last copy, which starts at the latest of the positions it can if the quantifier is greedy and at the earliest if not |
| AreRules.LastIterationHolds | src/are_bt.rs:1511-1623 | a group repeated from zero times on holds the last iteration of the division that leads all others: where they first differ its iteration is longer, or shorter for a reluctant body |
| AreRules.FirstBranchHolds | src/are_bt.rs:1324-1335 | of an alternation the first branch that can be the span is taken: none before it can, and no group outside it changes |
| AreCaptures.CapturedIsRuled | src/are_bt.rs:1304-1623 | the captures dissection leaves are those the rules prescribe for the tree |
| AreCaptures.CapturedParses | src/are_bt.rs:1304-1623 | and so those of a real parse of the span: a group holds what it matched, an iteration what its last copy set |
| AreParse.ParsesMatches | src/are_bt.rs:1254-1475 | such a parse is a match of the tree |
| AreParse.ParsesIsLaid | src/are_bt.rs:1254-1475 | the captures of a parse are nested as the groups are and in the order of the items, and unset where the parse did not go |
| AreExec.Pattern.New | src/are_bt.rs:959-1000 | the compiled pattern has the root program, the plan and the slots of its tree; there is one exactly when the programs of both come within the limits |
| AreExec.Pattern.FirstDissected | src/are_bt.rs:1224-1235 | the first end, in order of preference, whose span can be taken apart, with the captures the rules prescribe; none exactly when no span can |
| AreExec.Pattern.Exec | src/are_bt.rs:1182-1239 | exactly the leftmost span that can be taken apart and whose end has ended no match from further left, the preferred one from there, and none only when there is none; its captures are those the rules prescribe; gives up only with the budget spent, and not within the stated cost |
| AreExec.AnswerIsUnique | src/are_bt.rs:1182-1239 | a tree and a subject have one such answer |
| AreExec.LeftmostIsAnswered | src/are_bt.rs:1182-1239 | if any span from the leftmost start that matches can be taken apart, the answer is the preferred one of those |
| AreExec.PrescribedIsAnswer | src/are_bt.rs:1182-1239 | the leftmost, preferred match is the answer if and only if it can be taken apart |
| AreExec.FreeIsPrescribed | src/are_bt.rs:1182-1239 | unless an optional iteration with a reluctant body is limited below the subject's length, the answer is that match, and none only when nothing matches |
| AreLaws.LeftmostChoosesFromAll | src/are_bt.rs:1195-1239 | at the leftmost start that matches every end is there to choose, so there the laws below are about all matches |
| AreLaws.AnswerFollowsChoice | src/are_bt.rs:477-503 | the match is the longest of those there are to choose from, unless the first choice of the tree is reluctant: then the shortest; and without a choice both |
| AreLaws.AlternationIsLongest | src/are_bt.rs:484 | an alternation answers its longest match, whatever its branches |
| AreLaws.OneKindOfQuantifier | src/are_bt.rs:485-500 | with greedy quantifiers only the match is the longest; with reluctant ones only, and no alternation, the shortest |
| AreLaws.ConcatPrefersNext | src/are_bt.rs:479-483 | after items that leave no choice a concatenation prefers what its next item does: the longest for an alternation or a greedy quantifier, the shortest for a reluctant one |
| AreLaws.NoChoiceIsOneLength | src/are_bt.rs:477-503 | such an item matches one length at most |
| AreLaws.OneLengthIsNotNoChoice | src/are_bt.rs:477-503 | the converse fails: `(?:a|b)c*?` on `acc` answers `[0,3)`, though its first item matches one length and its next is reluctant |
| AreLaws.GroupSpan | src/are_bt.rs:1369-1399 | a group of a concatenation spans as much as what follows allows if it is an alternation or a greedy quantifier, as little if a reluctant one; of a free tree, over all matches |
| AreLaws.LastCopySpan | src/are_bt.rs:1344-1365 | a repeated group spans its last copy, from the latest start of all divisions of the span into copies if greedy, the earliest if not |
| AreLaws.FirstBranchSpan | src/are_bt.rs:1324-1335 | a group that is the first branch to match the span has it, and the groups of the other branches have none |
| AreLaws.LastIterationSpan | src/are_bt.rs:1511-1623 | an optional repeated group spans the last iteration of the leading division, of a free tree among all divisions of the span into matches of the group |
| AreFastPath.PriorityIsMatches | src/are_bt.rs:435-453 | the list of matches in priority order has exactly the ends the tree denotes |
| AreFastPath.Crossing | src/are_bt.rs:435-453 | two parses of a tree that is not risky whose spans cross can trade tails |
| AreFastPath.PriorityFalls | src/are_bt.rs:435-453 | in priority order each match not seen before is shorter than all before it |
| AreFastPath.FirstIsLongest | src/are_bt.rs:435-453 | for every tree that is not risky the first match in priority order is the longest |
| AreFastPath.FastPathAgrees | src/are_bt.rs:433-453 | a leftmost-first matcher finds a match whenever there is one, and it is the prescribed one if and only if the tree does not prefer its shortest match or has no other there |
| AreFastPath.SafeIsNotReluctant | src/are_bt.rs:441-446 | without an exact count `{m,m}?` a tree that is not risky never prefers its shortest match |
| AreFastPath.SafeIsFree | src/are_bt.rs:441-446 | such a tree has no repetition that keeps a span from dissecting |
| AreFastPath.EngineAgrees | src/are_bt.rs:519-528 | for such trees the answer is what a leftmost-first matcher finds, none for none |
| AreFastPath.ReluctantCountDisagrees | src/are_bt.rs:445-446 | `a{2,2}?b*` on `aab`: not risky, prefers `aa`, and the first match in priority order is `aab` |
| TclList.EscapeSwallows | src/parser.rs:1103-1173 | a backslash sequence that is no line continuation swallows digits at most, never a brace or a space |
| TclList.Collapse | src/assoc.rs:165-182 | resolves every backslash sequence of an element |
| TclList.FindElement | src/assoc.rs:78-139 | the element at a position by the brace, quote and bare rules, or the reason there is none |
| TclList.Split | src/assoc.rs:65-148 | the elements of a list, or the first error |
| TclQuote.ChooseQuoting | src/assoc.rs:203-268 | one pass decides the quoting that the next rows say by what each form would read as |
| TclForm.FormIsChosen | src/assoc.rs:203-268 | bare exactly when the element reads as itself so and in braces and holds nothing a script acts on; escaped exactly when it does not read back in braces or goes over a line; masked exactly when only closing brackets and interior quotes need hiding; otherwise braces |
| TclForm.TextIsChosen | src/assoc.rs:270-327 | so the text is the element, the element in braces, or a text in which nothing is acted on outside backslash sequences and each of those hides something; an element that would begin a comment is never bare |
| TclForm.BracesReadBack | src/assoc.rs:219-256 | in braces a text that goes over no line reads back if and only if its braces balance |
| TclForm.BracedElement | src/assoc.rs:78-118 | an element in braces is what is in them, and must be followed by white space |
| TclForm.QuotedElement | src/assoc.rs:78-139 | so is one in quotes with no quotes or backslashes of its own |
| TclForm.LeftOpen | src/assoc.rs:95-103 | a brace or a quote that nothing closes is refused as such |
| TclForm.SpaceIsSkipped | src/assoc.rs:69-75 | white space before an element is passed over |
| TclQuote.QuoteElement | src/assoc.rs:274-327 | the element written in the chosen way |
| TclQuote.Join | src/assoc.rs:330-340 | the elements, quoted, with spaces between |
| TclQuote.BraceCloses | src/assoc.rs:219-256 | the brace written after a balanced element is the one that closes it, past nested and backslashed braces |
| TclQuote.ElementReadsBack | src/assoc.rs:274-327 | an element written in any of the four ways reads back as it was, wherever it stands |
| TclQuote.SplitOfJoin | src/assoc.rs:65-340 | splitting a joined list gives back its elements, for every list of strings |
| TclQuote.JoinIsInjective | src/assoc.rs:330-340 | different lists are written differently |
| TclQuote.JoinIsNoComment | src/assoc.rs:270-287 | a joined list never begins with a `#` |
| TclDict.Dict.Put | src/assoc.rs:476-484 | an update keeps the entry's place, an insertion goes last, and the index agrees |
| TclDict.Dict.Remove | src/assoc.rs:486-495 | the entry goes, those after it move down, and the index agrees |
| TclDict.Parse | src/assoc.rs:457-468 | the dictionary of a list of keys and values, later values replacing earlier ones |
| TclDict.PutThenGet | src/assoc.rs:470-484 | a value put is found, and no other key changes |
| TclDict.RemoveThenGet | src/assoc.rs:470-495 | a key removed is absent, and no other key changes |
| TclDict.OrderOfKeys | src/assoc.rs:475-484 | keys keep the order of first insertion |
| TclDict.LastPairWins | src/assoc.rs:457-468 | of the pairs of a list the last with a key gives its value |
| TclDict.SetBelow | src/assoc.rs:2902-2913 | a path that goes on below the one written reads on in the value written |
| TclDict.SetKeepsOrder | src/assoc.rs:2902-2913 | at every step of its path a set keeps the order of the keys there, a new one last |
| TclDict.UnsetKeepsOrder | src/assoc.rs:2880-2895 | an unset takes one key out where its path ends and changes no order on the way |
| TclDict.ParseOfText | src/assoc.rs:457-510 | parsing the string form of a dictionary gives it back, in order |
| TclDict.GetDef | src/assoc.rs:2736-2760 | the walk down a path gives the value there, the default where a step is missing, an error where one is no dictionary |
| TclDict.DictSet | src/assoc.rs:2902-2913 | the text of the dictionary with the value written down the path |
| TclDict.DictUnset | src/assoc.rs:2880-2895 | the text of the dictionary with the last key of the path removed |
| TclDict.SetThenLookup | src/assoc.rs:2902-2913 | what is written down any path of keys is read back |
| TclDict.SetElsewhere | src/assoc.rs:2902-2913 | every path that diverges from the one written reads as before |
| TclDict.UnsetThenLookup | src/assoc.rs:2880-2895 | after an unset the path is absent |
| TclDict.UnsetElsewhere | src/assoc.rs:2880-2895 | every path that diverges from the one removed reads as before |
| TclDict.SetSucceeds | src/assoc.rs:2902-2913 | a set fails exactly when reading its path does |
| TclDict.UnsetSucceeds | src/assoc.rs:2880-2895 | an unset succeeds exactly when reading its path does and every step but the last is there |
| TclDict.LastWriteWins | src/assoc.rs:2902-2913 | of two writes down one path the second is what counts |
| TextCode.ReadIsLocal | src/cmd_encoding.rs:964-1317 | how a character is read does not depend on the bytes after it |
| TextCode.CutExists | src/cmd_encoding.rs:644-655 | any front of a valid byte string is whole characters and the start of another, and the rest decodes to the rest |
| TextCode.CutIsUnique | src/cmd_encoding.rs:644-655 | there is one such division |
| TextDecode.TableToUtf | src/cmd_encoding.rs:964-1003 | decodes a valid string of a table encoding to what it stands for and stops on any other |
| TextDecode.Utf8ToUtf | src/cmd_encoding.rs:1031-1174 | the same for utf-8, and for cesu-8 whose high surrogates wait for their low ones |
| TextDecode.Utf16ToUtf | src/cmd_encoding.rs:1211-1273 | the same for utf-16 and ucs-2 |
| TextDecode.Utf32ToUtf | src/cmd_encoding.rs:1276-1317 | the same for utf-32 |
| TextDecode.IncompleteTail | src/cmd_encoding.rs:675-738 | at most three bytes are withheld, and they are exactly the start of a character that has not all arrived, unless half a cesu-8 pair has |
| TextDecode.Utf8Tail | src/cmd_encoding.rs:690-732 | walking the buffer finds that start for utf-8; for cesu-8 it never withholds a high surrogate |
| TextDecode.StreamDecode | src/cmd_encoding.rs:648-656 | a buffer of whole characters and the start of another decodes to those characters and leaves that start; a cesu-8 buffer fails exactly when it is divided after the first half of a pair |
| TextDecode.DividedPair | src/cmd_encoding.rs:690-732 | any cesu-8 text cut after the first half of a pair is such a buffer |
| TextDecode.DecodeDividedPair | src/cmd_encoding.rs:648-656 | decoding fails on any text followed by the first three bytes of U+10000 |
| TextEncode.DecodeOfEncode | src/cmd_encoding.rs:1325-1459 | decoding undoes encoding, for every text that can be encoded |
| TextEncode.EncodesUnless | src/cmd_encoding.rs:1395-1428 | every text can be encoded, but in ucs-2 one with a character past U+FFFF |
| TextEncode.Utf8ReadsBack | src/cmd_encoding.rs:1179-1203 | the UTF-8 of any code point reads back as it, by section 3 of RFC 3629 |
| TextForm.EncodeOfDecode | src/cmd_encoding.rs:1031-1317 | a text decodes from one string of bytes only, the one it is encoded as: no overlong form, no pair in the wrong encoding |
| TextForm.Utf8Form | src/cmd_encoding.rs:1179-1203 | one to four bytes by the size of the code point, each after the first holding six bits of it: section 3 of RFC 3629 |
| TextForm.UnitForms | src/cmd_encoding.rs:1395-1459 | a unit is its number with the high byte first, or backwards in the other order; a pair holds the high and the low ten bits: section 2 of RFC 2781 |
| TextEncode.Utf16FromUtf | src/cmd_encoding.rs:1395-1408 | surrogate pairs past U+FFFF, by section 2 of RFC 2781, in either order of bytes |
| TextEncode.Ucs2FromUtf | src/cmd_encoding.rs:1414-1429 | a character past U+FFFF stops the conversion there |
| TextEncode.Cesu8FromUtf | src/cmd_encoding.rs:1368-1384 | an astral character is the two sequences of its pair |
| TextEncode.Utf32FromUtf | src/cmd_encoding.rs:1442-1459 | four bytes a character in either order |
| TextEncode.TableFromUtf | src/cmd_encoding.rs:1337-1361 | the entry of each character in one byte or two, stopping at the first that has none |
| TextEncode.BuildTable | src/cmd_encoding.rs:820-844 | the inverse has, for each character of the table, the last place it is at; under the stated conditions it undoes the table |
| TextEncode.WordReadsBack | src/cmd_encoding.rs:1337-1361 | a character of a well-formed table decodes from the bytes it was given |
| TclChannel.Channel.FillOnce | src/cmd_channel.rs:750-773 | text handed out and pending stays the translation of what the bytes read stand for; with valid input nothing is left undecoded at the end |
| TclChannel.Channel.Decode | src/cmd_channel.rs:776-811 | every complete character leaves the buffer and the start of another stays |
| TclChannel.Channel.TranslateIn | src/cmd_channel.rs:819-862 | the translation continues across calls, a carriage return at the end of one included |
| TclChannel.Channel.Gets | src/cmd_channel.rs:871-885 | the first line of what remains of the input, whatever sizes the device reads in |
| TclChannel.Channel.ReadChars | src/cmd_channel.rs:896-911 | the first characters of what remains, fewer only at the end |
| TclChannel.Channel.ReadRest | src/cmd_channel.rs:891-894 | all of what remains |
| TclChannel.Channel.StreamSoFar | src/cmd_channel.rs:750-913 | what has been handed out and what is pending are the front of the translated input, and at its end all of it |
| TclChannel.Channel.Write | src/cmd_channel.rs:961-988 | device and buffer hold the encoding of everything written; each buffering mode leaves in the buffer what it may |
| TclChannel.Channel.Flush | src/cmd_channel.rs:1003-1030 | partial writes deliver everything in order; what a failing device refuses is lost |
| TclChannel.CrlfRoundTrip | src/cmd_channel.rs:826-840 | CRLF output read back is the text but for a carriage return at its end, which is held and dropped |
| TclChannel.AutoReads | src/cmd_channel.rs:844-860 | with `auto` a line feed, a carriage return and the two together are each one line feed, and any other character is itself |
| TclChannel.AutoReadsBack | src/cmd_channel.rs:845-861 | in whatever mode a text was written, `auto` reads it back if and only if it has no carriage return |
| TclChannel.AutoHasNoReturn | src/cmd_channel.rs:845-861 | `auto` never gives a carriage return |
| TclChannel.OthersRead | src/cmd_channel.rs:819-843 | `crlf` joins the two together and keeps every other character, `cr` turns a carriage return into a line feed, `lf` changes nothing |
| TclChannel.LinesOut | src/cmd_channel.rs:926-934 | what is written of a line is the line and the ending of the mode |
| TclChannel.FeedsOut | src/cmd_channel.rs:961-988 | a line feed is written if and only if there is one and the mode is not `cr`, which is when line buffering sends a text |
| TclChannel.MeaningOfBytes | src/cmd_channel.rs:937-957 | what a text is encoded as stands for it; Latin-1 has a question mark for a character past U+00FF |
| TclChannel.PlainRoundTrips | src/cmd_channel.rs:819-933 | `lf` changes nothing; `cr` gives a text back exactly when it has no carriage return |
| TclChannel.WriteThenReadAuto | src/cmd_channel.rs:845-957 | a text written in any encoding with any endings is read back by `auto` if and only if it has no carriage return |
| TclChannel.WriteThenRead | src/cmd_channel.rs:926-957 | a text written in any encoding with CRLF endings is read back exactly when it does not end in a carriage return |
| TclClock.DaysOfCivil | src/cmd_clock.rs:235-258 | for every day the date is valid and its day number is that day |
| TclClock.CivilOfDays | src/cmd_clock.rs:235-258 | for every valid date the date of its day number is that date |
| TclClock.DaysOfNext | src/cmd_clock.rs:219-243 | the day after has the next number, leap years and ends of months included |
| TclClock.NextDay | src/cmd_clock.rs:246-258 | the date of the next day is the date after |
| TclClock.EpochIsZero | src/cmd_clock.rs:233-235 | 1970-01-01 is day 0 |
| TclClock.IsoWeekRebuilds | src/cmd_clock.rs:290-295 | the week is 1 to 53, and year, week and weekday rebuild the day exactly when the Julian day of the fourth of January of the ISO year is not negative or a multiple of seven |
| TclClock.FourthIsInFirstWeek | src/cmd_clock.rs:290-295 | the fourth of January of every year is in week 1 of that year |
| TclClock.WeekIsWhole | src/cmd_clock.rs:290-295 | year and week are the same from a Monday to its Sunday |
| TclClock.WeeksFollow | src/cmd_clock.rs:290-295 | the next Monday begins the next week of the year, or week 1 of the next when the fourth of January comes within it |
| TclClock.WeekdaysFollow | src/cmd_clock.rs:279-283 | 1970-01-01 was a Thursday, and the days of the week follow each other |
| TclClock.JulianDayIsZero | src/cmd_clock.rs:305-308 | Julian day 0 is the twenty-fourth of November 4714 before Christ, and the changeover is 1752-09-14 |
| TclClock.WeekOfYearCounts | src/cmd_clock.rs:299-303 | `%U` and `%W` are the number of Sundays or Mondays so far in the year |
| TclClock.JulianDays | src/cmd_clock.rs:798-803 | on a date it is its Julian day; months carry into years and days add |
| TclClock.Scanned.AssembleJulianDay | src/cmd_clock.rs:2283-2307 | any day from the changeover on is assembled from its ISO week, its date or its day of the year, and an earlier result is refused |
| TclClock.WeekdaysOffset | src/cmd_clock.rs:2739-2760 | lands on a weekday exactly that many weekdays on or back, a weekend counting from its Friday |
| TclClock.RankCounts | src/cmd_clock.rs:2737-2760 | the numbering of weekdays that offset is stated in counts each weekday once and no day of a weekend |
| TclClock.StepsAdd | src/cmd_clock.rs:2739-2760 | steps of weekdays compose additively |
| TclClock.WeekdayIsOnOrBefore | src/cmd_clock.rs:2524-2529 | the result is that weekday within a week, and on or before the day exactly when the truncated remainder is not negative |
| TclClock.WeekdayCanBeAfter | src/cmd_clock.rs:2524-2529 | of the Tuesdays on or before Julian day 0 it gives day 1 |
| TclBinary.PlanFormat | src/cmd_binary.rs:461-550 | every count resolved as its field says, arguments assigned in order, the length the high-water mark of the cursor; or the error of the first field that has no step |
| TclBinary.PlanIsPlanned | src/cmd_binary.rs:461-550 | the steps planned are steps for the fields, within the longest result |
| TclBinary.PlanIsTheOnly | src/cmd_binary.rs:461-550 | fields for which there are such steps are planned, so a format is refused only when there are none |
| TclBinary.HighWaterBounds | src/cmd_binary.rs:541-543 | the cursor is never past the high-water mark |
| TclBinary.HighWaterIsReached | src/cmd_binary.rs:541-543 | the mark is a place the cursor has been, so no shorter buffer would do |
| TclBinary.WriteFields | src/cmd_binary.rs:348-454 | the second pass's cursor is the plan's at every field, so every write is inside the buffer, which ends as the fields painted in order |
| TclBinary.FieldFits | src/cmd_binary.rs:348-454 | a field ends within the high-water mark |
| TclBinary.Format | src/cmd_binary.rs:348-454 | the result is the image of the resolved fields, of exactly the planned length; an error is that of the first field that cannot be planned, or else of the first value that cannot be written |
| TclBinary.BitsField | src/cmd_binary.rs:364-397 | the digits packed from either end of each byte, missing ones zero, any other character refused |
| TclBinary.HexField | src/cmd_binary.rs:398-425 | the digits packed by halves of bytes, in either order |
| TclBinary.WeightsRun | src/cmd_binary.rs:364-397 | from the low end the digits of a byte weigh 1, 2, 4 and so on, from the high end 128, 64, 32 |
| TclBinary.HalvesForm | src/cmd_binary.rs:398-425 | the first of two digits is the high half of the byte, or the low half; a missing one is zero |
| TclBinary.NumberForm | src/cmd_binary.rs:576-654 | the lowest byte of a number is first, or last when the order is big-endian, and the others are those of a 256th of it |
| TclBinary.NumberReadsBack | src/cmd_binary.rs:576-874 | a number written and scanned is congruent to the value modulo 2 to the bits and in the signed or unsigned range, in either order of bytes |
| TclBinary.Spared | src/cmd_binary.rs:348-454 | bytes that no later field writes over stay as they were |
| TclScan.Scan | src/cmd_binary.rs:697-836 | one field at a time: its count resolved, refused, skipped or read, and the end of the data ends the scan without an error |
| TclScan.StarTakesAll | src/cmd_binary.rs:728-836 | a `*` count is the greatest for which what is left of the data is enough |
| TclScan.StarMoves | src/cmd_binary.rs:797-820 | fields that take nothing move the cursor to the end of the data or back to its start with `*`, and never out of it |
| TclScan.ReadField | src/cmd_binary.rs:733-834 | the value of a field from its bytes: text with or without its blanks, digits from either end of each byte, integers |
| TclScan.ScanOfFormat | src/cmd_binary.rs:348-836 | scanning a formatted string with its own fields gives a value for every argument and no error, the cursors agreeing at each field; a field nothing later has written over gives the value of the bytes it wrote |
| TclScan.NumbersReadBack | src/cmd_binary.rs:576-874 | that value of an integer field is each of its integers reduced into the signed or unsigned range |
| TclScan.TextReadsBack | src/cmd_binary.rs:733-757 | that of a text field is its low bytes with the padding, or without it when blanks are trimmed and the text ends in none |
| TclScan.BitsReadBack | src/cmd_binary.rs:758-778 | that of a field of bits is the digits it was given, zeros past their end |
| TclScan.HexReadsBack | src/cmd_binary.rs:779-797 | the same for halves of bytes |
| TclBase64.Base64Digits | src/cmd_binary.rs:889-904 | the digits of each group of three bytes, padded, by section 4 of RFC 4648 |
| TclBase64.DigitsRun | src/cmd_binary.rs:889-904 | the alphabet is the capital letters, the small ones, the figures, a plus sign and a slash, in order |
| TclBase64.GroupIsBits | src/cmd_binary.rs:889-904 | the four digits of three bytes are the same 24 bits |
| TclBase64.Wrap | src/cmd_binary.rs:907-921 | the body in lines of the length asked for |
| TclBase64.DecodeBase64 | src/cmd_binary.rs:1030-1093 | any text at all: without `strict` the bytes of the characters that count, blocks of four up to the first padding; with it an error exactly on text outside that form |
| TclBase64.StrictWithoutPadding | src/cmd_binary.rs:1041-1050 | characters of the alphabet with no padding are accepted strictly unless one is left over, and decode as if padded |
| TclBase64.EncodedReadsBack | src/cmd_binary.rs:889-1093 | decoding gives back any byte string, at any line length; unwrapped, it is text strict decoding accepts |
| TclUuencode.Uuencode | src/cmd_binary.rs:926-946 | lines of a length character and groups, the last group short, each followed by the separator |
| TclUuencode.DigitsRun | src/cmd_binary.rs:926-946 | the characters run from the exclamation mark, zero being a backquote, and none is a blank |
| TclUuencode.GroupCarries | src/cmd_binary.rs:933-941 | the characters of a group carry its bytes |
| TclUuencode.DecodeUuencode | src/cmd_binary.rs:1100-1174 | any text at all, as the function `DecodedFrom` says: the length of each line, its groups, what is passed over or refused within them and between lines |
| TclUuencode.DecodeOfEncode | src/cmd_binary.rs:926-1174 | decoding undoes encoding for every line length and every separator the encoder accepts; with `strict` exactly when nothing stands between lines, or one newline and the groups are whole, or there is one line that ends in a short group and no newline |

## Left out

- Back-references: `Backref` and `Defined` instructions, the search without a table they
  need, and `citer` with a minimum above zero, which only they reach. Trees here have none.
- The parser of translated patterns and its flags: a pattern is the tree it produces,
  with the limits it enforces as `WellFormed`.
- The `regex` crate, which is taken as "the first match in priority order", and the second
  condition of `needs_engine`, about `\A` and `^` at a restart.
- Which characters are word characters is a parameter of a subject.
- AreVisited.Visited.Insert: a word of the bit table is sixty-four booleans, not an integer.
- AreDissect.Dissect.Go: a search that has spent its budget answers nothing.
- AreCharSet.New: a range whose first bound is above its second, which is refused before
  the pattern is translated (src/are.rs:464-466).
- Captures are a sequence handed on and returned where the source edits one vector;
  inside a search they are an array edited in place.
- `src/are.rs`, the lexer of `regcomp`, whose tables are not part of this model.
- TclList.Split: the text an error quotes is its position.
- List syntax works on characters; the bytes of a character beyond ASCII are never special.
- TextDecode.StreamDecode: the strict profile only, which is a channel's; `tcl8` and
  `replace` substitute characters and are reached by `encoding convertfrom` alone.
- TextEncode.BuildTable: reading the file, its symbol page, its backslash repair and its
  trailing reverse section; those tables are not inverses.
- TclChannel.Channel.FillOnce: how a broken tail is shown at end of file is a parameter.
- The standard channels' own output, seeking, re-entrant drivers and the channel table.
- Escape encodings, and encodings by name.
- Time zones, formats, locales and the free-form scanner; month arithmetic with clamping.
- TclClock.Scanned.AssembleJulianDay: the flags are three booleans.
- TclBinary.Format: floating-point fields.
- TclBinary.PlanFormat: the format string has been read into fields and the arguments into
  characters and integers; floating-point fields are left out.
- TclScan.Scan: floating-point fields and the `C` field, which is `a` cut at its first NUL.
- TclScan.ScanOfFormat: fields with a `*` count other than `X*` mean different counts to a
  format and a scan.
- TclBase64.DecodeBase64: the position an error names.
- Glob matching, array variables, opcodes, files and everything else of the interpreter.
