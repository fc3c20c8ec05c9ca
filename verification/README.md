# Verified models of tmake and its Jim Tcl extensions

tmake is a build tool whose build files are scripts of an embedded Tcl interpreter, Jim Tcl. This project models
nine parts of the program and proves what they are for. Each part that changes state step by step is a class or a
method with loops, proved against a mathematical definition of what it should compute; the definitions have
theorems of their own.

- **Regular expressions** (`jimtcl/jimregexp.c`, the single-byte build). `RegexSyntax` gives patterns a meaning:
  the spans of the input that a pattern derives, with the marks of its groups. `RegexParser` is the grammar, and
  `RegexPrinter` its inverse: texts for every canonical tree, which the grammar reads back as that tree; `RegexTokens`
  and `RegexLaws` say what the signs of a pattern mean, from its text to its language.
  `RegexCode` is the program of a syntax tree, a flat array of nodes with relative offsets. The class `Regex`
  (`Regex.dfy`) compiles a pattern in place, with the insertions, tail walks and patches of the source, and runs
  the program by backtracking. `RegexLayout` proves that every offset of a compiled program leads to a node;
  `RegexRun` and `RegexMachine` prove that the search finds exactly what the pattern derives; `RegexHints` and
  `RegexSearch` prove that the three shortcuts of a search never change its result; `RegexCaptures` says what the
  slots of the groups hold.
- **The build engine** (`tm_target.c`, `tm_update.c`, the `rule` command of `tm_core_cmds.c`). `Build.dfy` has the
  rule objects, the depth-first visit over copies of them, and the run over a cache of hashes. `BuildGraph` says
  what order the visit gives and when it fails, `BuildRun` which recipes run and in what order, as a least set
  over the rules, and `BuildRules` how the rule table comes about.
- **The hash** (`tm_crypto.c`). `Sha1Spec` is the secure hash of FIPS 180-2 (sections 5.1.1, 5.3.1 and 6.1.2), with the
  laws of its functions and constants in `Sha1Laws` and the example of its appendix A.1 in `Sha1Example`;
  `Sha1.dfy` has the streaming context that computes it.
- **Prepared statements and transactions** (`jimtcl/sqlite3/jim-sqlite3.c`). `StmtCache` is the doubly linked list of
  cached statements; `Transactions` the nested `transaction` command over a database with a stack of savepoints.
- **Timers** (`jimtcl/jim-eventloop.c`). The sorted list of timers and a pass over it while handlers change it.
- **Bit fields** (`jimtcl/jim-pack.c`), **UTF-8** (`jimtcl/utf8.c` with UTF-8 enabled) and **the line history**
  (`jimtcl/linenoise.c`): round trips of reading and writing.

`dafny verify dfyconfig.toml` checks the whole project.

Where the code and its documentation disagree the model follows the code:

- `tm_target.c:322-324` says that sorting checks for cycles. It notices only the goal when it comes back to it, so
  another cycle may go unnoticed: the visit then never ends (`BuildGraph.SelfLoopIsUnseen`), unless it comes back to
  the goal before it gets there (`BuildGraph.GoalFirstEnds`). `BuildGraph.VisitEndsIff` says exactly when it ends.
- `jimtcl/jimregexp.c:1396-1404` means the end-of-word anchor to need the end of the input or another character than
  those of a word, but the test there is always true: the anchor also matches inside a word
  (`RegexSyntax.WordEndInsideWord`), and agrees with the documentation everywhere else
  (`RegexSyntax.WordEndAgreesIff`).
- A class item written backwards whose ends are neighbours is stored with length zero and hides the items after it
  (`jimtcl/jimregexp.c:539-547`, `RegexMachine.ReversedNeighboursLoseItems`); the scan is right exactly if these add
  no character (`RegexMachine.ScanIsRightIff`).
- A history entry that fills the buffer of the reader comes back with an empty entry after it, and a longer one in
  pieces (`HistoryText.LongLineIsSplit`); `HistoryText.RoundTripIff` says exactly which histories come back.
- `jimtcl/utf8.h:100` says that stepping back returns `-len` if no start is found; the code returns `len`.

## Model

| member | source | states |
|---|---|---|
| RegexCompiler.Regex.RegComp | jimtcl/jimregexp.c:233-316 | compiling a pattern gives exactly the program and the three hints of its syntax tree, or the error of the grammar |
| RegexCompiler.Regex.Reg | jimtcl/jimregexp.c:327-396 | a group or a whole pattern is appended to the program as the code of its tree, every branch led to the closing node |
| RegexCompiler.Regex.RegBranch | jimtcl/jimregexp.c:403-432 | one alternative is appended as a BRANCH node and the chained code of its pieces |
| RegexCompiler.Regex.RegPiece | jimtcl/jimregexp.c:443-532 | an atom and its repeat operator, greedy or not, simple or complex, with the bounds and errors of the source |
| RegexCompiler.Regex.RegRepeat | jimtcl/jimregexp.c:506-523 | inserting the repeat node in front of an atom that is already emitted gives the code of the repeated piece |
| RegexCompiler.Regex.RegAtom | jimtcl/jimregexp.c:678-916 | the lowest level of the grammar: groups, anchors, classes, escapes and runs of ordinary characters |
| RegexCompiler.Regex.RegLiteral | jimtcl/jimregexp.c:862-904 | a run of characters stops before one that a repeat follows, unless that is the whole run |
| RegexCompiler.Regex.RegClassItem | jimtcl/jimregexp.c:717-771 | one item of a bracketed class: a range, an escape, a named class or a character |
| RegexCompiler.RegDecodeEscape | jimtcl/jimregexp.c:621-668 | the character an escape stands for and the bytes it takes |
| RegexCompiler.Regex.RegInsert | jimtcl/jimregexp.c:957-971 | insertion moves the code behind it and changes nothing else |
| RegexCompiler.Regex.RegTail | jimtcl/jimregexp.c:976-997 | walks a chain to its last node, from any start that reaches it, and sets only that node's offset |
| RegexCompiler.Regex.RegTie | jimtcl/jimregexp.c:376-379 | following the chain of branches and leading each tail to the closing node turns loose branches into the code of the choice |
| RegexPrinter.ShowReads | jimtcl/jimregexp.c:327-916 | parsing a text of any canonical tree, its groups numbered in order and its repeats written with `*`, `+`, `?` and `{n}` or with two bounds in braces, gives exactly that tree, or an error from a hundred groups on: nesting, precedence, escapes, gobbled literals, classes, bounds and group numbers |
| RegexPrinter.CountReads | jimtcl/jimregexp.c:453-504 | `*`, `+`, `?`, `{n}`, `{n,}` and `{n,m}` are read as their bounds and their greediness |
| RegexPrinter.RepeatOfRepeatFails | jimtcl/jimregexp.c:525-529 | a repeat of a repeat is an error |
| RegexPrinter.ParenthesesMustMatch | jimtcl/jimregexp.c:384-396 | a parenthesis that is not closed, or not opened, is an error |
| RegexPrinter.ClassReads | jimtcl/jimregexp.c:702-781 | the text of a class is read as its sign and its ranges, in order |
| RegexPrinter.LiteralReads | jimtcl/jimregexp.c:862-904 | a run of characters, escaped where they must be, is read to its end and joined to what was read before |
| RegexTokens.SignsAreAscii | jimtcl/jimregexp.c:678-916 | the signs of the language are the ASCII characters that they are |
| RegexTokens.LetterEscapes | jimtcl/jimregexp.c:621-668 | the characters that letters stand for after a backslash; any other stands for itself |
| RegexTokens.HexEscapes | jimtcl/jimregexp.c:621-668 | two, four or eight hexadecimal digits after x, u or U stand for their number |
| RegexTokens.LetterClasses | jimtcl/jimregexp.c:812-840 | d, w and s after a backslash take exactly the decimal digits, the characters of words and the blanks |
| RegexTokens.WordAnchors | jimtcl/jimregexp.c:804-811 | m, M and the angle brackets after a backslash are the word anchors |
| RegexTokens.NamedClasses | jimtcl/jimregexp.c:745-771 | alpha, alnum and space in a class take exactly the letters, the letters and digits, and the blanks |
| RegexTokens.BoundsAreSmall | jimtcl/jimregexp.c:467-500 | no repeat is read with a lower bound of a hundred or more, nor with an upper one but for none |
| RegexLaws.TextMatchesItself | jimtcl/jimregexp.c:862-904 | a text with backslashes before its signs matches itself and nothing else |
| RegexLaws.SignsMean | jimtcl/jimregexp.c:1376-1416 | the patterns `^`, `$` and `.` match at the start, at the end, and any one character |
| RegexLaws.RangeMeans | jimtcl/jimregexp.c:702-781 | a class of one range takes the characters between its ends, and with `^` all others |
| RegexLaws.RepeatedAtom | jimtcl/jimregexp.c:443-532 | an atom of one character with a repeat matches the runs of characters it takes whose length is within the bounds |
| RegexLaws.OperatorsMean | jimtcl/jimregexp.c:501-504 | after a character `*` means any number of it, `+` at least one and `?` at most one |
| RegexParser.WidthSnoc | jimtcl/jimregexp.c:403-432 | the width and loop flags of a branch are gathered piece by piece as the code does |
| RegexCaptures.ParsedIsNumbered | jimtcl/jimregexp.c:337-349 | groups are numbered from 1 in the order of their opening parentheses, and a parsed pattern has fewer than 100 |
| RegexCaptures.ParsedIsSearchable | jimtcl/jimregexp.c:233-316 | every parsed pattern without complex repeats, negative counts and badly reversed class items is one the language theorems cover |
| RegexLayout.ProgramStretch | jimtcl/jimregexp.c:1591-1611 | a compiled program, complex repeats included, is a run of whole nodes whose offsets are zero or lead to nodes of it |
| RegexLayout.WalkVisitsAll | jimtcl/jimregexp.c:1591-1611 | the walk by node sizes visits exactly the nodes of the syntax tree, each once and in order: branches, group nodes, leaves, repeat heads and their operands, BACK nodes, END |
| RegexLayout.WalkReachesEnd | jimtcl/jimregexp.c:1051-1057 | so does the walk from the first operand, but for the first branch, and it arrives at END |
| RegexLayout.NextIsNode | jimtcl/jimregexp.c:1573-1586 | every nonzero next offset of a node of the tree leads to the start of a node of the tree, strictly forwards except from BACK |
| RegexCompiler.Regex.RegOpSize | jimtcl/jimregexp.c:1591-1611 | the size of a node, whatever its operand |
| RegexCompiler.Regex.RegClearCounters | jimtcl/jimregexp.c:1050-1057 | whatever is left in the counters of complex repeats, the walk ends with the program as it was compiled |
| RegexRun.OutcomesMean | jimtcl/jimregexp.c:1352-1507 | the successes of the search from a position are exactly the declarative derivations from there |
| RegexRun.RepeatMeans | jimtcl/jimregexp.c:1235-1293 | a simple repeat derives exactly the runs of accepted characters whose length is within its bounds |
| RegexMachine.ResultsExist | jimtcl/jimregexp.c:1352-1507 | a start has a success exactly if some stretch of the input from it is in the language of the pattern |
| RegexMachine.ResultsMean | jimtcl/jimregexp.c:1352-1507 | the successes at a start are the derivations of the whole pattern from there |
| RegexMachine.LookaheadFails | jimtcl/jimregexp.c:1246-1272 | where the next literal's first character is not in the input, going on would fail anyway |
| RegexRun.SaneIsEffective | jimtcl/jimregexp.c:1181-1191 | a scan considers all items of a class if no reversed one has neighbouring ends |
| RegexMachine.FindsEffective | jimtcl/jimregexp.c:539-547 | and in general finds exactly the characters of the items up to the first such one |
| RegexMachine.ScanIsRightIff | jimtcl/jimregexp.c:1181-1191 | the scan is right for every character exactly if the items it does not consider add no character to the others |
| RegexMachine.ReversedNeighboursLoseItems | jimtcl/jimregexp.c:539-547 | a class in which a reversed item hides the next one, and one with a reversed item that is scanned rightly |
| RegexSyntax.WordStartsOnce | jimtcl/jimregexp.c:1384-1393 | the start-of-word anchor matches exactly once in every word, where it begins |
| RegexSyntax.WordEndAgreesIff | jimtcl/jimregexp.c:1394-1408 | the end-of-word anchor and its documentation agree at a position exactly if it is not between two characters of a word |
| RegexSyntax.WordEndInsideWord | jimtcl/jimregexp.c:1394-1408 | an input and a position at which they do not |
| RegexCompiler.Regex.RegMatch | jimtcl/jimregexp.c:1352-1507 | the matcher ends with the first success of the code it is at: verdict, end position and slots; if there is none the slots are as before |
| RegexCompiler.Regex.RegMatchBranches | jimtcl/jimregexp.c:1445-1460 | branches are tried in order, each from the same position |
| RegexCompiler.Regex.RegMatchSimpleRepeat | jimtcl/jimregexp.c:1235-1293 | greedy and minimal repeats try the allowed counts in their order, with the lookahead |
| RegexCompiler.Regex.RegMatchGroup | jimtcl/jimregexp.c:1476-1495 | what follows a group node is matched first, and the position recorded only if the slot is not yet set |
| RegexCompiler.Regex.RegRepeatCount | jimtcl/jimregexp.c:1512-1568 | how many characters from here on a simple atom takes, up to a bound, for every class as its scan decides |
| RegexCompiler.Regex.RegRangeFind | jimtcl/jimregexp.c:1181-1191 | whether a character is in the class stored at a position |
| RegexCompiler.Regex.PrefixCmp | jimtcl/jimregexp.c:1157-1174 | whether the input has a literal at a position |
| RegexCompiler.Regex.StrFind | jimtcl/jimregexp.c:1202-1217 | the first position that holds a character |
| RegexCompiler.Regex.RegTry | jimtcl/jimregexp.c:1132-1148 | a try at one start: all slots cleared, slot 0 set on success |
| RegexCompiler.Regex.RegExec | jimtcl/jimregexp.c:1025-1126 | with all its shortcuts the search gives the verdict and the slots of trying every start in order |
| RegexCompiler.Regex.RegSearchAll | jimtcl/jimregexp.c:1110-1122 | trying every start in order, the end of the input included |
| RegexCompiler.Regex.RegSearchChar | jimtcl/jimregexp.c:1101-1109 | trying only the starts that hold the first character gives the same |
| RegexCompiler.Regex.RegFindMust | jimtcl/jimregexp.c:294-308 | the walk along the chain finds the last of the longest literals of a lone branch |
| RegexHints.LongestIsLongest | jimtcl/jimregexp.c:294-308 | and no other plain literal is longer |
| RegexSearch.MustThere | jimtcl/jimregexp.c:294-308 | the hint is inside the program and its length is that of the literal there |
| RegexSearch.FirstCharSound | jimtcl/jimregexp.c:1101-1109 | a pattern that starts with a literal matches only where its first character is |
| RegexSearch.AnchorSound | jimtcl/jimregexp.c:1076-1097 | an anchored pattern matches only at the start of the input |
| RegexSearch.MustSound | jimtcl/jimregexp.c:1059-1070 | every input the pattern matches has the must-appear string |
| RegexSearch.SearchMeans | jimtcl/jimregexp.c:1025-1126 | a search succeeds exactly if some stretch of the input is in the language, and reports the leftmost start there is |
| RegexSearch.UnboundedRepeat | jimtcl/jimregexp.c:467-504 | the maximum that stands for no bound matters exactly for runs of more than a million characters |
| RegexCaptures.SlotsAreCaptures | jimtcl/jimregexp.c:1132-1148 | after a success slot 0 is the match, and the slots of the groups are those of one alternative: stretches that their content matches, each inside the group around it, and unset for the groups not taken |
| RegexCaptures.RecordAllMeans | jimtcl/jimregexp.c:1476-1495 | recording positions on the way back, only into unset slots, leaves the last mark of each group |
| BuildGraph.VisitEndsIff | tm_target.c:288-320 | the visit of a goal ends exactly if no chain that it follows, past no dependency that is or reaches the goal, meets a target again; it then goes no deeper than the table is long |
| BuildGraph.OnlyGoalCyclesEnd | tm_target.c:288-320 | it ends if every cycle that the goal reaches passes through the goal |
| BuildGraph.SelfLoopIsUnseen | tm_target.c:322-324 | a table with a cycle on which the visit never ends |
| BuildGraph.GoalFirstEnds | tm_target.c:288-320 | and one with the same cycle on which it does, as it comes back to the goal first |
| BuildGraph.SortedIsVisit | tm_target.c:288-341 | every visit that ends, however deep it may go, comes to the same |
| BuildGraph.SortedFailsIffCycle | tm_target.c:288-341 | a visit that ends fails exactly if the goal depends on itself, directly or not |
| BuildGraph.SortedIsOrder | tm_target.c:288-341 | otherwise it lists exactly the targets the goal reaches, every occurrence after all its dependencies, the goal last and only there |
| Build.FindRule | tm_target.c:190-205 | the first rule for a target |
| Build.FindRules | tm_target.c:242-255 | fresh copies, marks included, of the rules for these targets, in reverse order |
| Build.TopsortVisit | tm_target.c:288-320 | a visit that ends extends the list by the order of the graph or fails; only the mark of the visited object changes |
| Build.Topsort | tm_target.c:325-341 | the sorted list of a goal, empty on failure |
| Build.RuleListReverse | tm_target.c:260-270 | fresh copies in the opposite order |
| Build.Builder.FindFiles | tm_target.c:229-236 | the table becomes that of BuildRules.AddAllMissing |
| BuildRules.FindFilesCloses | tm_target.c:212-236 | closing the table gives every dependency a rule, adds file rules for exactly those that had none, and leaves the others |
| Build.Builder.RuleCmd | tm_core_cmds.c:14-132 | the command changes the table as BuildRules.Define says, sets the goal once, and reports a second recipe |
| BuildRules.DefineIsMeant | tm_core_cmds.c:66-124 | no target ever gets two rules, nothing said before is lost, nothing is added but what the command says for the targets it names, and a command that succeeds holds for all of them |
| Build.Builder.NeedsUpdate | tm_update.c:121-193 | when a target is out of date: no rule, always, an updated dependency, or no current hash in the cache |
| Build.Builder.NeedUpdate | tm_update.c:200-211 | the sublist of targets that are out of date |
| Build.Builder.WasUpdated | tm_update.c:111-114 | whether a target was updated in this run |
| Build.Builder.Update | tm_update.c:55-106 | records a target as updated and stores its current hash |
| Build.Builder.UpdateRules | tm_update.c:222-288 | the recursive run over a sorted list has the effect of one step for each entry, or stops at a missing file |
| Build.Builder.RunRecipe | tm_update.c:236-275 | one recipe: skipped if the target was updated before, and the inner call over its dependencies adds nothing |
| Build.Builder.Make | tmake.c:299-337 | from the rules to a build, whenever sorting ends: no rule, a cycle through the goal, a missing file, or a build that is as it should be |
| Build.Builder.MakeTwice | tmake.c:299-337 | a second build without force, from the cache of a successful first one, is made too, runs a recipe exactly if the goal reaches one that is always out of date, and otherwise changes nothing |
| BuildRun.SecondBuildIsIdle | tm_update.c:222-288 | the same of any two builds that are as they should be, the second from the cache of the first |
| BuildRun.ChangedFileIsRebuilt | tm_update.c:55-106 | a file whose contents have another hash than at the last build is updated, and every recipe reached that depends on it runs |
| BuildRun.ChangedRecipeIsRun | tm_update.c:55-106 | a recipe whose text has another hash than at the last build runs, and so does every recipe reached that depends on it |
| BuildRun.UpdatedRunsDependents | tm_update.c:222-288 | whatever is updated in a build makes the recipes that depend on it run |
| BuildRun.NewOrForcedIsRun | tm_update.c:222-288 | a recipe whose target the cache does not know runs, and under force every recipe reached |
| BuildRun.RunSettles | tm_update.c:222-288 | after a run no entry of its list has anything left to do |
| BuildRun.SettledRunIsIdle | tm_update.c:253 | a run over settled entries changes nothing |
| BuildRun.RepeatsAreIdle | tm_update.c:233-287 | the repeats of the sorted list make no difference to log, cache and updated targets |
| BuildRun.RunIsMeant | tm_update.c:222-288 | the updated targets are those out of date with respect to the old cache and the updated targets; their hashes are stored; each recipe among them ran once, after those of its dependencies |
| BuildRun.RunIsLeast | tm_update.c:222-288 | and they are the least such set |
| BuildRun.BuildIsMeant | tm_update.c:222-288 | the same for everything that is reachable from the goal |
| BuildRun.SecondRunIsIdle | tm_update.c:222-288 | a run without force right after another changes nothing if no reachable recipe is always out of date |
| BuildRun.SecondRunExecutesIff | tm_update.c:222-288 | and it executes a recipe exactly if there is one that is |
| Sha1Stream.Sha1Ctx.constructor | tm_crypto.c:182-195 | a new context has taken in the empty message |
| Sha1Stream.Sha1Ctx.Transform | tm_crypto.c:125-180 | one block is compressed as section 6.1.2 of FIPS 180-2 says |
| Sha1Stream.Sha1Ctx.Update | tm_crypto.c:197-210 | taking in more bytes, however they are cut, appends them to the message |
| Sha1Stream.Sha1Ctx.PadBlock | tm_crypto.c:214-230 | both ways of padding give the blocks of section 5.1.1 of FIPS 180-2 |
| Sha1Stream.Sha1Ctx.Final | tm_crypto.c:212-253 | the digest is that of the message taken in |
| Sha1Stream.HashData | tm_crypto.c:45-78 | the digest of a C string, of nothing for a null pointer |
| Sha1Stream.HashFile | tm_crypto.c:80-109 | the digest of a file, whatever the reads return; so it agrees with that of a string with the same bytes |
| Sha1Stream.HashToString | tm_crypto.c:111-119 | the digest in hexadecimal |
| Sha1Stream.PadSplits | tm_crypto.c:214-242 | the blocks that are fed make up the padded message |
| Sha1Spec.ZeroCount | tm_crypto.c:218-230 | the least number of zero bytes that leaves room for the length |
| Sha1Spec.PadIsInjective | tm_crypto.c:212-242 | different messages never feed the same blocks |
| Sha1Spec.HexIsInjective | tm_crypto.c:111-119 | different digests are written differently |
| Sha1Spec.HexReads | tm_crypto.c:111-119 | the digits at the place of a byte read as that byte, the higher one first |
| Sha1Spec.WordFromBytes | tm_crypto.c:244-252 | the bytes of a word are written in the order in which words are read |
| Sha1Laws.FBits | tm_crypto.c:143-177 | bit by bit, the rounds choose, take the parity, take the majority and take the parity again |
| Sha1Laws.TurnedByOne | tm_crypto.c:132-135 | rotation by one moves every bit to the place above it |
| Sha1Laws.TurnedByFive | tm_crypto.c:143-177 | rotation by five moves every bit by five |
| Sha1Laws.TurnedByThirty | tm_crypto.c:143-177 | rotation by thirty moves every bit by thirty |
| Sha1Laws.ConstantsAreRoots | tm_crypto.c:182-194 | the constants are the square roots of 2, 3, 5 and 10 with thirty bits of fraction |
| Sha1Laws.InitialCounts | tm_crypto.c:182-194 | the digits of the initial value count up, down, and both ways |
| Sha1Example.Example | tm_crypto.c:125-253 | the digest of "abc" is that of the standard |
| StmtCache.Db.ListIsCached | jimtcl/sqlite3/jim-sqlite3.c:128-131 | the list read forwards is the sequence of cached statements, read backwards its reverse, and the count is its length |
| StmtCache.Db.PrepareAndBind | jimtcl/sqlite3/jim-sqlite3.c:993-1078 | the first cached statement that serves is taken out of the list, and the outcome is that of compiling the text, cached or not |
| StmtCache.HitIsWhatCompilingGives | jimtcl/sqlite3/jim-sqlite3.c:1014-1021 | a cached statement that passes the test of the text is the one compiling the text would give, for every compiler that reads the first statement only |
| StmtCache.CompiledServesIff | jimtcl/sqlite3/jim-sqlite3.c:1014-1021 | what was compiled from a text passes its test exactly if it is the whole of the text or ends at a semicolon |
| StmtCache.ReleasedIsFound | jimtcl/sqlite3/jim-sqlite3.c:1014-1041 | and once it is released it is what the next preparation of the text finds |
| StmtCache.Db.Unlink | jimtcl/sqlite3/jim-sqlite3.c:1027-1037 | taking a statement out of the list, wherever it is |
| StmtCache.Db.Push | jimtcl/sqlite3/jim-sqlite3.c:1165-1177 | a statement becomes the first of the list |
| StmtCache.Db.Evict | jimtcl/sqlite3/jim-sqlite3.c:1181-1187 | the last of at least two statements goes; there is always one before it |
| StmtCache.Db.ReleaseStmt | jimtcl/sqlite3/jim-sqlite3.c:1146-1189 | a released statement is dropped, or put in front of a list that is cut to the size that is set |
| StmtCache.Db.FlushStmtCache | jimtcl/sqlite3/jim-sqlite3.c:432-443 | the list becomes empty |
| StmtCache.Db.CacheSize | jimtcl/sqlite3/jim-sqlite3.c:1672-1689 | a new size is capped and does not shorten the list; a negative one empties it |
| StmtCache.Db.Perform | jimtcl/sqlite3/jim-sqlite3.c:993-1189 | one step of a run, a text prepared, a statement released, a flush or a new size, changes the list and its bound as the run says |
| StmtCache.RunKeepsNewestFirst | jimtcl/sqlite3/jim-sqlite3.c:1014-1041 | after any run of such steps the list is ordered by the time of release, the newest first, and never holds more than the greatest size |
| Transactions.SqliteDb.TransactionCmd | jimtcl/sqlite3/jim-sqlite3.c:2539-2581 | a tree of nested transactions over savepoints has the meaning of nested all-or-nothing blocks; stack and counter are restored |
| Transactions.SqliteDb.Begin | jimtcl/sqlite3/jim-sqlite3.c:2547-2574 | the type matters only at the outermost level; a refused or misspelt begin changes nothing |
| Transactions.SqliteDb.TransPost | jimtcl/sqlite3/jim-sqlite3.c:938-976 | which statement closes a level, and that a refused commit is rolled back and becomes an error |
| Transactions.SqliteDb.Eval | jimtcl/sqlite3/jim-sqlite3.c:2579 | evaluating any script keeps counter and stack in step and has the meaning of the script |
| Transactions.OnlyKeptWritesLast | jimtcl/sqlite3/jim-sqlite3.c:2531-2581 | a script changes the data by exactly the writes that have no failing transaction around them, whatever the data; how it ends does not depend on the data |
| Transactions.NestedScriptsDoNotAsk | jimtcl/sqlite3/jim-sqlite3.c:938-976 | only outermost transactions begin or commit |
| Timers.EventLoop.CreateTimeHandler | jimtcl/jim-eventloop.c:199-232 | a new timer gets the next id and goes before the first that is later; the list stays sorted with ties in id order |
| Timers.EventLoop.RemoveTimeHandler | jimtcl/jim-eventloop.c:273-288 | the timer with an id leaves the list, the others stay |
| Timers.EventLoop.DeleteTimeHandler | jimtcl/jim-eventloop.c:297-317 | the time that was left, never negative, -1 for no such timer, -2 for an id never given |
| Timers.EventLoop.SleepTime | jimtcl/jim-eventloop.c:361-377 | the loop may sleep until the nearest timer, which is the first |
| Timers.EventLoop.ProcessTimers | jimtcl/jim-eventloop.c:460-491 | a pass ends however handlers create and delete timers; it fires only timers that were there before and are due, each at most once; with a clock that does not go back no timer due at the start is left, and with one that stands still they fire in order |
| Timers.EventLoop.Fire | jimtcl/jim-eventloop.c:470-484 | a timer leaves the list before its handler runs, so the timers a pass may still run get fewer |
| Timers.InsertedKeepsQueue | jimtcl/jim-eventloop.c:214-229 | inserting by time keeps order, distinct ids and the bound on ids |
| Pack.BitInt | jimtcl/jim-pack.c:63-112 | byte-wise and bit-wise reading give the number in the field, as a signed 64-bit integer |
| Pack.BytesInt | jimtcl/jim-pack.c:68-74 | reading whole bytes gives the number that the bits make |
| Pack.SetBit | jimtcl/jim-pack.c:120-146 | one bit of the stream changes and no other |
| Pack.SetBitsInt | jimtcl/jim-pack.c:158-191 | both ways of writing put the bits of the value into the field and leave all others |
| Pack.FieldIsMod | jimtcl/jim-pack.c:148-157 | a field just written is the value modulo two to the width |
| Pack.FieldIsBytes | jimtcl/jim-pack.c:63-112 | a field of whole bytes is the number these make in base 256, the most significant one first or last as the order says |
| Pack.SignExtendRecovers | jimtcl/jim-pack.c:39-51 | sign extension gives back every value that fits the width |
| Pack.PackCmd | jimtcl/jim-pack.c:401-459 | the string is grown with zero bytes as far as needed, and the field written; bad widths and offsets are refused |
| Pack.UnpackCmd | jimtcl/jim-pack.c:317-341 | a field past the end is cut, one outside is 0, and a width that is negative or above 64 is refused |
| Pack.GrownTo | jimtcl/jim-pack.c:430-436 | the string grows by no more bytes than needed |
| Pack.PackRoundTrip | jimtcl/jim-pack.c:63-191 | what was packed is unpacked: exactly if it fits a signed field, otherwise modulo two to the width |
| Pack.PackLeavesOthers | jimtcl/jim-pack.c:148-191 | fields that do not meet do not disturb each other |
| Utf8.FromUnicode | jimtcl/utf8.c:17-42 | the encoding of a code point is stored and the rest of the buffer left |
| Utf8.Decode | jimtcl/utf8.c:110-140 | decoding takes one to four bytes, stays in the string and never takes in its NUL |
| Utf8.DecodeEncoded | jimtcl/utf8.c:17-140 | what was encoded is decoded, wherever it stands; bits above the 21st are lost |
| Utf8.EncodeIsNumber | jimtcl/utf8.c:17-42 | the bytes of an encoding are the digits of its code point in base 64, the most significant one first |
| Utf8.EncodeIsShortest | jimtcl/utf8.c:17-42 | a code point takes as few bytes as its bits allow |
| Utf8.DecodeIsNumber | jimtcl/utf8.c:110-140 | whatever the bytes, a complete sequence is decoded to the number of its digits, and a byte that starts none stands for itself |
| Utf8.RoundTrip | jimtcl/utf8.c:17-140 | encoding any code points from 1 to 0x1fffff and decoding the string gives them back |
| Utf8.StrLen | jimtcl/utf8.c:63-77 | the number of code points of a string, or up to a boundary |
| Utf8.EndIsBoundary | jimtcl/utf8.c:63-77 | the end of any string, valid or not, is met exactly |
| Utf8.Index | jimtcl/utf8.c:79-87 | the position after some code points |
| Utf8.OffsetOfEncoded | jimtcl/utf8.c:79-87 | in an encoded string these positions are where the encodings meet |
| Utf8.PrevLen | jimtcl/utf8.c:89-108 | the nearest start before a position, within a limit |
| Utf8.PrevOfOffset | jimtcl/utf8.c:89-108 | in a string of code points, stepping back from the position after k of them gives the position after k - 1 |
| Utf8.PrevOfEncoded | jimtcl/utf8.c:89-108 | stepping back from the end of an encoded code point finds its start, or stops at the limit |
| Utf8.CharLenOfEncoded | jimtcl/utf8.c:45-61 | the first byte of an encoded code point tells its length |
| LineHistory.History.Add | jimtcl/linenoise.c:1421-1446 | a line goes to the end, and the oldest is dropped if there is no room; one that repeats the last is not taken |
| LineHistory.History.SetMaxLen | jimtcl/linenoise.c:1452-1478 | the newest lines are kept |
| LineHistory.History.Save | jimtcl/linenoise.c:1482-1510 | the text of the file |
| LineHistory.History.Load | jimtcl/linenoise.c:1517-1553 | every piece that is read is decoded in place and added |
| LineHistory.History.DecodeLine | jimtcl/linenoise.c:1526-1547 | decoding in place gives the unescaped text without its line end |
| HistoryText.UnescapeEscaped | jimtcl/linenoise.c:1489-1541 | undoing the escapes of a line gives the line |
| HistoryText.EscapesAreOfC | jimtcl/linenoise.c:1490-1506 | a line feed is written as a backslash and an n, a carriage return with an r, a backslash twice, and read so |
| HistoryText.RoundTripIff | jimtcl/linenoise.c:1482-1553 | a saved history is loaded as it was exactly if each entry fits the read buffer with its newline, or fills it, does not end in a line end and is followed by an empty entry |
| HistoryText.ReachableRoundTrip | jimtcl/linenoise.c:1421-1553 | and so for any history that can come about, as none has a line that repeats the one before |
| LineHistory.History.Perform | jimtcl/linenoise.c:1421-1553 | one step of a run, adding, resizing or loading, changes the lines and the bound as the run says |
| HistoryText.RunKeepsBounds | jimtcl/linenoise.c:1421-1478 | adding, resizing and loading keep a history within its bound and free of such lines |
| HistoryText.LongLineIsSplit | jimtcl/linenoise.c:1523 | any plain line that fills the buffer comes back with an empty line after it |

## Left out

- The matching of complex repeats (REPX, REPXMIN and BACK): their code is in the compiler and the layout theorem, but not in the matcher and the language theorems, as a failed attempt does not restore the position.
- Regular expressions with REG_ICASE, REG_NEWLINE or REG_NOTBOL, the UTF-8 build, and calls with null pointers or a program that was not compiled.
- A pattern that ends within the digits of a brace: the source reads on past its end there, the model reports unmatched braces.
- RegexPrinter.ShowReads: the texts write each class as ranges and each character as itself or with a backslash; the escapes and named classes have their own theorems.
- RegexCompiler.Regex.RegMatch: no pattern with a complex repeat; none with a negative lower bound, with which the source steps back before the repeat; and no class whose scan loses a character.
- RegexCompiler.Regex.RegMatchBranches: as RegMatch.
- RegexCompiler.Regex.RegMatchSimpleRepeat: as RegMatch.
- RegexCompiler.Regex.RegMatchGroup: as RegMatch.
- RegexCompiler.Regex.RegTry: as RegMatch.
- RegexCompiler.Regex.RegSearchAll: as RegMatch.
- RegexCompiler.Regex.RegSearchChar: as RegMatch.
- RegexCompiler.Regex.RegExec: as RegMatch, and no class with a stored length of zero, which the walk that clears the counters takes for the end of the class.
- Growing the program array and freeing it: the program is a sequence.
- The loop of a simple repeat is split in two, for counting down and for counting up.
- The text that a recipe is called with, in particular the list of its inputs that are out of date; a recipe is an entry of a log, and is assumed to end well and not to change source files.
- Runs stopped by a missing file: what was stored before is not described.
- Changes that pass through targets without a recipe: such targets are never recorded as updated, in the source as in the model.
- Goals for which the visit of the rules never ends: the methods that sort require the exact condition under which it does.
- Reading the file of the TMakefile, the command line and the database behind the cache: the cache is a map for one TMakefile, files are a map from names to contents.
- Binding values to a statement, and errors of a cached statement that compiling again would give: compiling is a function of the text that depends on its first statement only.
- Scripts that themselves begin, commit or roll back: a script writes data, ends with a code, catches errors and nests transactions; a savepoint inside a transaction is never refused.
- File events and the waiting of the event loop; handlers are any sequence of creating and deleting timers.
- Timer ids and times are unbounded integers.
- Packing of floating-point numbers and strings, and positions that overflow.
- The case mappings of UTF-8.
- Loading a history in which a piece read ends in a lone backslash: the source then reads on behind the piece, the model reports a failure.
- Terminal handling of the line editor, and all wrappers of the operating system.
