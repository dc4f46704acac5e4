# Verified model of the judge engine

The judge engine runs submissions, watches their time, memory and output, and asks a checker
whether an output is right. Checkers are small programs over `support/testlib.h`. This project
models the parts of that chain whose correctness is not visible from one function at a time, and
proves what each part promises.

* **Pattern engine** (`PatternTree`, `PatternParser`, `PatternGrammar`, `PatternRoundTrip`,
  `PatternLimits`, `PatternSyntax`, `PatternCompiler`, `PatternGenerator`): the compiler from text
  to a tree, the greedy matcher and the generator. Matching is sound always and exact under an
  exact condition; compiling inverts printing; generation reaches exactly the language.
* **Input stack** (`PushbackStream`, `BufferedReader`, `TokenText`, `InputStreams`): the windowed
  buffer refines a plain pushback stream, and the token loop enumerates the maximal non-blank runs.
* **Checkers** (`Decimal`, `HugeIntegers`, `TokenCheckers`, `LineText`, `DefaultChecker`,
  `DefaultReference`, `Judging`): each checker program computes a simple relation on two texts,
  which is followed through its exit code and the watched run to the outcome of the submission.
* **Concurrent parts** (`OutputBudget`, `Watcher`, `CompileCache`, `CacheRecency`, `CompileErrors`):
  state machines over atomic steps; results hold for every interleaving of any number of
  participants.
* **Random generation** (`Randomness`, `SamplingStates`, `Permutations`, `Partitions`,
  `DistinctCounts`): uniformity by counting draws and by counting the 48-bit states behind them,
  shuffling as a bijection, partitions as stars and bars with equally many choices for each.
* **Text codecs** (`PlainDecimals`, `Exponential`, `ExponentialNotation`, `OptionValues`,
  `EscapedText`, `TestResults`, `ResultLines`): exponential notation and test result files.

Conventions. A `char` is a signed byte, so byte 0xFF is -1 and differs from the end symbol 255. The
no-return `quit` becomes the exit code of the program. Loops over mutable positions, buffers and
vectors are methods with invariants, each proved against a specification function; the properties
are lemmas about that function. SHA-256 is an arbitrary function, assumed injective only where a
theorem says so. Clocks, channel choice, runtime replies and random draws are inputs.

Some promises hold only under a condition, which is proved exact and comes with an input that
breaks the promise: greedy matching (`PatternTree.GreedyExactCondition`, `ChainExactCondition`; input
in `GreedyLosesWord`), lines with lone carriage returns (`LineText.NormalLinesExact`; input in
`DefaultChecker.LoneReturnLost`), even residues of 63-bit draws over the states of the generator
(`SamplingStates.EvenlyGivenExactly`; inputs in `UnevenAt33` and `LongNeverReturns`) and over
independent halves (`Randomness.HalvesUniformUnlessVersion0`; input in `Version0NeverJoins`), the
smallest exponent (`Exponential.ExponentialKeepsValue`; input in `SmallestExponentLost`) and very
large points (`TestResults.PointsRoundTrip`; input in `HugePointsLost`).

The documentation of `pattern` does not say that NUL cannot be listed in a set, that a negated set
never admits byte 0xFF, that a group may only end a sequence, or that `{2,}` means exactly two; the
model follows the code (`PatternLimits`, `PatternGrammar.AtomCharsMembers`).

`dafny verify dfyconfig.toml` in this directory checks the whole project.

## Model

| member | source | states |
|---|---|---|
| `PatternTree.MatchSound` | support/testlib.h:1333-1370 | whatever the greedy matcher accepts belongs to the regular language of the tree, for every tree |
| `PatternTree.GreedyExactCondition` | support/testlib.h:1351-1370 | a node loses no word of its language if and only if it denotes none, or its continuation loses none and, when its count is variable, the continuation is closed under dropping a leading character of the set |
| `PatternTree.ChainExactCondition` | support/testlib.h:1351-1370 | for a whole tree without alternatives: the matcher decides membership of every text if and only if every node with a variable count is closed in this way |
| `PatternTree.FollowDisjointExact` | support/testlib.h:1351-1370 | when no set with a variable count shares a character with what may follow it, the matcher decides membership exactly, for every text |
| `PatternTree.GreedyLosesWord` | support/testlib.h:698-700 | the documented gap: `[0-9]?1` denotes "1" and refuses it, and so does any optional set before any character that it holds |
| `PatternTree.MatchesUnfolds` | support/testlib.h:1351-1370 | matching at any position is: take the longest allowed run, then one alternative accepts what is left |
| `PatternTree.BinarySearchExact` | support/testlib.h:1333-1345 | on a sorted set binary search finds exactly the members, so the greedy run is the run of set members |
| `PatternParser.CommandIffBoundary` | support/testlib.h:1301-1326 | counting backslashes backwards decides whether a character is a command exactly as reading the escapes from the left does |
| `PatternParser.ParseWellFormed` | support/testlib.h:1531-1585 | every tree the constructor builds has sorted sets and ordered bounds at every node; construction terminates on every text |
| `PatternGrammar.AtomCharsMembers` | support/testlib.h:1465-1529 | the set compiled for a (negated) bracket holds exactly the bytes the bracket admits; 0xFF is in no negated set |
| `PatternGrammar.DenoteMeans` | support/testlib.h:1531-1585 | the language of the intended tree is the meaning of the written expression |
| `PatternRoundTrip.ParsePrint` | support/testlib.h:1531-1585 | the constructor inverts printing: every valid expression (groups at the tail only), printed with any choice of escapes and with bare minus signs, carets, counts and brackets wherever they are plain, compiles to exactly its tree |
| `PatternRoundTrip.SpacesIgnored` | support/testlib.h:1531-1538 | unescaped spaces change nothing: a text and its stripped form compile to the same tree |
| `PatternRoundTrip.CompiledMatchesMeaning` | support/testlib.h:1351-1585 | end to end: a printed expression whose tree is follow-disjoint matches exactly the texts the expression means |
| `PatternLimits.MisplacedGroupRejected` | support/testlib.h:1541-1585 | a group may only end a sequence: behind any items, a group that a sequence follows is rejected, whatever is inside the group |
| `PatternLimits.GroupThenRejected` | support/testlib.h:1541-1585 | the case of a group at the front: its parenthesis is taken for a character, and what is left has an unmatched one |
| `PatternLimits.SkipAny` | support/testlib.h:1541-1563 | outside parentheses the scan passes any expression without a change of depth |
| `PatternLimits.NulAddsNothing` | support/testlib.h:1477-1506 | a NUL read in a bracket adds nothing to the set |
| `PatternLimits.NulStartsNoRange` | support/testlib.h:1480-1501 | behind a NUL a minus sign is listed itself instead of starting a range |
| `PatternLimits.NulRangeMisread` | support/testlib.h:1465-1529 | a range from NUL to an ordinary character is read as the minus sign and that character |
| `PatternLimits.LastBackslash` | support/testlib.h:1319-1331 | a backslash that ends the text escapes the NUL behind it |
| `PatternLimits.LastMinusListed` | support/testlib.h:1480-1487 | a bare minus sign that ends a bracket is listed: the set holds exactly the bytes of the items before it and the minus sign |
| `PatternLimits.SignSet` | support/testlib.h:1480-1487 | "[+-]" compiles to exactly the two signs |
| `PatternLimits.RangeExactly` | support/testlib.h:1489-1497 | a range adds exactly the bytes between its ends and leaves nothing pending; one whose ends are in the wrong order is rejected |
| `PatternLimits.ClosersNeeded` | support/testlib.h:1415-1509 | a set that is read ends in an unescaped closing bracket, and counts in an unescaped closing brace |
| `PatternLimits.BraceExactly` | support/testlib.h:1399-1444 | numbers in braces: one gives an exact count, two in order give bounds, none, more or two in the wrong order are rejected, and a trailing comma counts for nothing, so `{2,}` means exactly two |
| `PatternSyntax.UnbalancedRefused` | support/testlib.h:1541-1563 | a text whose unescaped parentheses are not balanced is refused, and so is one with an ordinary character behind more closing than opening ones |
| `PatternSyntax.ScanDepth` | support/testlib.h:1541-1563 | the pass fails exactly at such a character, and its depth is opening minus closing parentheses |
| `PatternSyntax.EmptyRefused` | support/testlib.h:1465-1467 | there is no pattern for the empty text, nor with an empty alternative |
| `PatternSyntax.GrammarInAscii` | support/testlib.h:662-696 | each construct of the grammar in ASCII, as the documentation of `pattern` writes it |
| `PatternCompiler.RemoveSpaces` | support/testlib.h:1531-1538 | the loop that drops unescaped spaces computes the stripped text |
| `PatternCompiler.BracketBody` | support/testlib.h:1477-1506 | the loop over a bracket reads the set that the scan specification defines, or fails where it does; what that set is, a bare minus at the end included, is fixed by `ParsePrint` and `LastMinusListed` |
| `PatternCompiler.Actuals` | support/testlib.h:1513-1522 | the complement loop computes the complemented set |
| `PatternCompiler.ScanCharSetAt` | support/testlib.h:1465-1529 | one atom is read as the scan specification says: its set and the position behind it |
| `PatternCompiler.ScanCountsAt` | support/testlib.h:1393-1463 | braces, `?`, `*`, `+` or nothing give exactly the specified bounds and position, or fail |
| `PatternCompiler.ScanTop` | support/testlib.h:1541-1563 | the single pass finds the top-level bars and parentheses, and fails on unbalanced ones |
| `PatternCompiler.Compile` | support/testlib.h:1531-1585 | the imperative constructor equals the parse function about which the round trip is proved |
| `PatternCompiler.CompileAll` | support/testlib.h:1565-1583 | all alternatives are compiled in order, failing when one fails |
| `PatternGenerator.NextSound` | support/testlib.h:1372-1391 | whatever is drawn, a generated string belongs to the language of the pattern |
| `PatternGenerator.DrawCharsSelect` | support/testlib.h:1378-1382 | each draw selects the character at its own index; the repetition fails exactly when a draw is missing or out of range |
| `PatternGenerator.NextSelects` | support/testlib.h:1372-1391 | the first draw is the count above the least one, the next ones select the characters, the one behind them the alternative that continues |
| `PatternGenerator.NextReaches` | support/testlib.h:1372-1391 | every string of the language comes out of some draws, which it uses up exactly (no unbounded repeat) |
| `PatternGenerator.GeneratedIffInLanguage` | support/testlib.h:1351-1391 | generation and language agree, and under follow-disjointness generated strings are exactly the matched ones |
| `BufferedReader.Reader.RunScript` | support/testlib.h:1876-1998 | any legal run of look, read, skip, push back and end tests, across any refills, shows exactly the symbols of the plain pushback stream and leaves its state and line number |
| `BufferedReader.Reader.RunOp` | support/testlib.h:1949-1987 | each single operation refines its operation on the plain stream |
| `BufferedReader.Reader.constructor` | support/testlib.h:1923-1928 | a new reader stands at the start of the file on line 1 |
| `BufferedReader.Reader.Refill` | support/testlib.h:1890-1913 | loading the next block changes nothing that can be observed, and fails only at the end of the file |
| `BufferedReader.Reader.NextChar` | support/testlib.h:1956-1961 | returns the next symbol and passes it unless it is an end mark |
| `BufferedReader.Reader.CurChar` | support/testlib.h:1949-1954 | shows the next symbol without any observable change |
| `BufferedReader.Reader.SkipChar` | support/testlib.h:1963-1965 | passes a symbol that has been seen, without refilling |
| `BufferedReader.Reader.UnreadChar` | support/testlib.h:1967-1975 | puts a symbol back in front; fails exactly when the room is used up; an end mark stays an end mark |
| `BufferedReader.Reader.Eof` | support/testlib.h:1985-1987 | true exactly when the next symbol is the end mark |
| `PushbackStream.LineConserved` | support/testlib.h:1915-1975 | line number plus line feeds still to come never changes, whatever is read or pushed back in whatever order |
| `PushbackStream.LineOfPosition` | support/testlib.h:1915-1975 | the line number is 1 plus the line feeds consumed |
| `PushbackStream.CountsTens` | support/testlib.h:1915-1975 | line feeds are the symbols 10 |
| `PushbackStream.UnreadInverse` | support/testlib.h:1956-1975 | pushing back undoes reading and reading undoes pushing back |
| `PushbackStream.MarkSticks` | support/testlib.h:1956-1961 | an end mark once pushed back is never passed |
| `TokenText.TokensOfLayout` | support/testlib.h:3376-3417 | tokens laid out with any blanks between them are read back as the same tokens |
| `TokenText.LayoutOf` | support/testlib.h:3376-3417 | every text is its tokens laid out with some blanks, so tokens are the maximal non-blank runs |
| `TokenText.TokensAreTokens` | support/testlib.h:3386-3417 | every token is non-empty and free of blanks |
| `TokenText.BlankExactly` | support/testlib.h:1599-1602 | bytes 9, 10, 13 and 32, and no others, are blank |
| `TokenText.OneByteSeparates` | support/testlib.h:3386-3417 | two words with one byte between them are two tokens if that byte is 9, 10, 13 or 32, and one token otherwise |
| `InputStreams.QuitBlames` | support/testlib.h:3053-3191 | each of the codes 0, 1, 2 and 3 is characterised: only the output stream, read to its end, can accept; any other stream, and any failure, blames the judge; format errors, dirt, a missing token and unread output give 2 |
| `InputStreams.InStream.constructor` | support/testlib.h:3254-3282 | a stream over an opened file shows the whole content |
| `InputStreams.InStream.SkipBlanks` | support/testlib.h:3376-3379 | leaves the text from its first non-blank byte |
| `InputStreams.InStream.SeekEof` | support/testlib.h:4168-4180 | true exactly when no token is left; the tokens stay |
| `InputStreams.InStream.FinishWord` | support/testlib.h:3399-3417 | collects the rest of the word byte for byte and pushes back the byte behind it; fails exactly beyond the length limit |
| `InputStreams.InStream.ReadWordTo` | support/testlib.h:3386-3417 | returns the first token and leaves exactly the later ones; ends the run with the right code when there is none or it is too long |
| `InputStreams.InStream.SkipBom` | support/testlib.h:3323-3336 | removes a byte order mark and leaves every other text unchanged, also one that starts with part of a mark |
| `InputStreams.InStream.ReadLong` | support/testlib.h:3859-3866 | returns the int64 whose canonical notation the next token is, and ends the run otherwise |
| `Decimal.Vtos` | support/testlib.h:548-566 | the digit loop prints the canonical notation of every int64, the smallest included |
| `Decimal.StringToLongLong` | support/testlib.h:3773-3812 | accepts exactly canonical int64 notations and returns their value |
| `Decimal.Int64RoundTrip` | support/testlib.h:548-566 | a text is accepted with value v if and only if it is what printing v produces |
| `Decimal.CanonicalUnique` | support/testlib.h:3773-3805 | a canonical text is the text of its value |
| `Decimal.CanonicalInjective` | support/testlib.h:3773-3805 | canonical texts with equal values are equal |
| `Decimal.ZeroRule` | support/testlib.h:3778-3802 | the leading-zero test of the program rejects exactly texts with a redundant zero or a negative zero |
| `Decimal.Int64TextLength` | support/testlib.h:3773-3805 | no canonical int64 is longer than the length limit of the program |
| `Decimal.CountZeroes` | support/testlib.h:3778-3788 | the loop checks that only digits follow and counts the leading zeros |
| `HugeIntegers.PnumCompiles` | support/checkers/hcmp.cpp:6 | the pattern literal compiles to the intended tree |
| `HugeIntegers.PnumDisjoint` | support/checkers/hcmp.cpp:6 | in this pattern no set shares a character with what may follow it, so matching is exact |
| `HugeIntegers.PnumMeans` | support/checkers/hcmp.cpp:6 | the expression means exactly the canonical integers |
| `HugeIntegers.NumericIffCanonical` | support/checkers/hcmp.cpp:8-10 | the compiled pattern, run by the greedy matcher, accepts exactly the canonical integers of any size |
| `TokenCheckers.QuitOk` | support/testlib.h:3053-3091 | an accepting end is turned into a format error by unread output |
| `TokenCheckers.Register` | support/testlib.h:4903-4905 | opens the output without its byte order mark and the answer unchanged |
| `TokenCheckers.RegisterBlames` | support/testlib.h:3284-3306 | a file over the size limit ends the run at once: an input or answer blames the judge, an output the participant, in this order of opening |
| `TokenCheckers.WcmpLoop` | support/checkers/wcmp.cpp:12-33 | the lockstep loop and the final tests compute the specified code of the two token sequences |
| `TokenCheckers.Wcmp` | support/checkers/wcmp.cpp:5-34 | the whole program on three files: its exit code is a function of the two token sequences |
| `TokenCheckers.WcmpAccepts` | support/checkers/wcmp.cpp:12-28 | accepted if and only if both files have the same tokens, all short enough to be read |
| `TokenCheckers.WcmpBlamesAnswer` | support/checkers/wcmp.cpp:12-20 | the judge is blamed exactly when, before any difference, an answer token is too long |
| `TokenCheckers.WcmpFirstTrouble` | support/checkers/wcmp.cpp:12-33 | code 2 if and only if the first trouble is an output token too long to read, 1 if and only if it is a difference or the end of one file only |
| `TokenCheckers.WcmpDecided` | support/checkers/wcmp.cpp:12-33 | behind equal readable tokens the next position fixes the code |
| `TokenCheckers.Drain` | support/checkers/ncmp.cpp:29-39 | reads the remaining numbers to the end, failing exactly when one is no int64 |
| `TokenCheckers.NcmpLoop` | support/checkers/ncmp.cpp:13-52 | the three loops compute the specified code of the two token sequences |
| `TokenCheckers.Ncmp` | support/checkers/ncmp.cpp:5-53 | the whole program on three files: its exit code is a function of the two token sequences |
| `TokenCheckers.NcmpAccepts` | support/checkers/ncmp.cpp:13-52 | accepted if and only if both files hold the same sequence of canonical int64 notations |
| `TokenCheckers.NcmpFirstFault` | support/checkers/ncmp.cpp:13-52 | code 3 if and only if the first fault in reading order is a bad answer token, 2 if and only if it is a bad output token |
| `TokenCheckers.NcmpFaultDecides` | support/checkers/ncmp.cpp:13-52 | a first fault at any position fixes the exit code |
| `TokenCheckers.HcmpBody` | support/checkers/hcmp.cpp:16-31 | the reads and tests of the program compute the specified code |
| `TokenCheckers.Hcmp` | support/checkers/hcmp.cpp:12-32 | the whole program on three files, its pattern compiled from the literal |
| `TokenCheckers.HcmpAccepts` | support/checkers/hcmp.cpp:12-32 | accepted if and only if each file holds one canonical integer and the two values, of any size, are equal |
| `TokenCheckers.HcmpBlamesOutput` | support/checkers/hcmp.cpp:12-32 | codes 2 and 1: an unreadable or non-canonical output, or more behind an equal one, gives 2; two canonical integers of different value give 1 |
| `LineText.LineOfPiece` | support/testlib.h:4264-4292 | a line as read is the bytes up to the line feed, with every other carriage return dropped and the symbol behind it kept |
| `LineText.AsReadVisible` | support/testlib.h:4270-4286 | reading keeps the visible bytes in order and adds one, -1, exactly behind a carriage return that dangles at the end of the file |
| `LineText.PieceExact` | support/checkers/default.cpp:15-28 | a line is read and trimmed as it stands if and only if carriage returns stand only in its blank end and none dangles |
| `LineText.NormalLinesExact` | support/checkers/default.cpp:15-44 | the lines compared are the right-trimmed lines of the file (no mark, no empty lines at the end) if and only if every line is clean |
| `DefaultChecker.Eoln` | support/testlib.h:4182-4208 | passes a line end and says so, or restores the stream |
| `DefaultChecker.LineChar` | support/testlib.h:4270-4286 | one round of the line loop takes one character of the specified line |
| `DefaultChecker.ReadLine` | support/testlib.h:4264-4292 | returns the specified line and leaves the text behind its end |
| `DefaultChecker.NormalizeLine` | support/checkers/default.cpp:15-28 | drops a mark from the first line and all trimmable bytes from the end; `NormalizedExactly` says which bytes these are |
| `DefaultReference.StripsMark` | support/checkers/default.cpp:8-13 | the mark is the bytes EF BB BF and nothing else |
| `DefaultReference.NormalizedExactly` | support/checkers/default.cpp:15-28 | a line and a normalized line agree if and only if the line is (a mark on the first line and) that text followed only by bytes among 32, 9, 13, 12 and 11, and the text does not end in one |
| `DefaultChecker.ReadNormalizedLines` | support/checkers/default.cpp:30-44 | reads the whole stream into the specified lines |
| `DefaultChecker.CompareLines` | support/checkers/default.cpp:53-69 | the line loop and the length test hold exactly for equal sequences |
| `DefaultChecker.Default` | support/checkers/default.cpp:46-75 | the whole program on three files: 0 if and only if the normalized lines are equal, else 1 |
| `DefaultChecker.DefaultAccepts` | support/checkers/default.cpp:46-75 | on clean files: accepted if and only if the right-trimmed lines are equal up to empty lines at the end |
| `DefaultReference.AcceptsLinesRead` | support/checkers/default.cpp:46-75 | on any two files: 0 if and only if the lines read agree one by one up to such bytes at their ends, a missing line being empty, else 1 |
| `DefaultReference.AcceptsClean` | support/checkers/default.cpp:46-75 | on clean files the lines are those between the line feeds, so accepted if and only if the files become equal by adding such bytes at line ends and empty lines at the end |
| `DefaultReference.PiecesJoin` | support/checkers/default.cpp:30-44 | these lines joined by line feeds are the file, and none holds a line feed |
| `DefaultReference.CleanExactly` | support/testlib.h:4270-4286 | clean means: every carriage return stands among such bytes at the end of its line, and evenly many at the very end of the file |
| `DefaultChecker.LoneReturnLost` | support/testlib.h:4276-4282 | a lone carriage return is lost: a file with one is accepted for the file without it |
| `Judging.OutcomeExactly` | internal/service/checker.go:201-207 | a submission is accepted (rejected) if and only if the checker ended by itself, within its limits and untruncated, with code 0 (1 or 2) |
| `Judging.EndedOutcome` | internal/service/checker.go:201-207 | 0 is accepted, 1 and 2 are rejected, every other code is a checker failure |
| `Judging.FilesOutcome` | internal/service/checker.go:201-207 | the exit code of a checker program on three files, oversized ones included, fixes the outcome |
| `Judging.WcmpJudges` | internal/service/checker.go:201-207 | from three files to the outcome: an oversized file decides first; then accepted if and only if the token sequences are equal and readable, failed if and only if a too long answer token comes before any difference, else rejected |
| `Judging.NcmpJudges` | internal/service/checker.go:201-207 | from three files to the outcome: an oversized file decides first; then accepted if and only if the int64 sequences are equal, failed if and only if the first fault is in the answer file, else rejected |
| `Judging.HcmpJudges` | internal/service/checker.go:201-207 | from three files to the outcome: an oversized file decides first; then accepted if and only if both files hold one canonical integer of equal value, failed if and only if the answer is unusable, else rejected |
| `Judging.DefaultJudges` | internal/service/checker.go:201-207 | from three files to the outcome: an oversized file decides first; then accepted if and only if the lines (on clean files: those between the line feeds) agree one by one up to space, tab, carriage return, form feed and vertical tab at their ends, else rejected |
| `OutputBudget.OutputLimiter.Reserve` | internal/sandbox/output_limiter.go:25-36 | grants the bytes asked for or what is left, and never lets the use pass the limit |
| `OutputBudget.LimitedWriter.Write` | internal/sandbox/output_limiter.go:50-68 | an uninterrupted call is the chain of its atomic steps; it always reports the whole length |
| `OutputBudget.StepKeepsInv` | internal/sandbox/output_limiter.go:25-68 | every atomic step of every writer keeps the accounting invariant |
| `OutputBudget.BudgetSafety` | internal/sandbox/output_limiter.go:25-68 | in every interleaving of any number of writers: bytes held plus grants in flight equal the use, which is at most the limit, and each buffer is a prefix of its own input |
| `OutputBudget.BudgetExact` | internal/sandbox/output_limiter.go:25-68 | at rest: stored bytes are the smaller of limit and bytes written; a writer overflowed and the signal fired if and only if the total exceeds the limit |
| `Watcher.Task.StopTask` | internal/sandbox/containerd.go:350-375 | kills first, then succeeds exactly when the exit arrives and can be read |
| `Watcher.Task.WaitForOutput` | internal/sandbox/containerd.go:330-348 | returns success when the copiers drained in time, and cancels them before it fails otherwise |
| `Watcher.Task.WaitForExecutionEvent` | internal/sandbox/containerd.go:293-328 | the select loop returns the first deciding event in the order the channels become ready, asking for metrics once per tick |
| `Watcher.Task.WaitForTask` | internal/sandbox/containerd.go:252-291 | every way out but a natural exit attempts a kill before returning, and a natural exit attempts none |
| `Watcher.Task.WatchExecution` | internal/sandbox/containerd.go:222-250 | the whole watcher equals the decision function the safety results are about; the task is killed if and only if it was stopped or an operation failed |
| `Watcher.DecideSource` | internal/sandbox/containerd.go:293-328 | a decision rests on an event that happened; a CPU stop on a reading at or over the limit |
| `Watcher.FirstEventDecides` | internal/sandbox/containerd.go:293-328 | a tick goes on exactly while metrics can be read and show less CPU time than the limit, in nanoseconds; the first other event decides, each kind in its way |
| `Watcher.ExitVerdict` | internal/sandbox/verdict.go:23-53 | the five verdicts of a program that exited by itself, each if and only if: output before memory before CPU time before the exit code; without metrics or all its output there is no verdict |
| `Watcher.StopVerdict` | internal/sandbox/containerd.go:276-290 | a stopped program gets a verdict if and only if its metrics were read, the kill found it or found it gone, its exit followed and could be read, and its output arrived; the verdict is that of the limit, the exit code 0 |
| `Watcher.NoVerdict` | internal/sandbox/containerd.go:222-250 | a failed start, a cancelled context, a closed exit channel or an unreadable exit ends without a verdict |
| `Watcher.MleExactly` | internal/sandbox/verdict.go:38-40 | MLE if and only if the program exited, nothing overflowed, and a memory kill was seen or the code is not 0 with memory pressure seen |
| `Watcher.TleExactly` | internal/sandbox/verdict.go:28-44 | TLE if and only if a CPU or wall stop was completed, or the program exited without those at or over the CPU limit |
| `Watcher.ReExactly` | internal/sandbox/verdict.go:49-51 | RE if and only if the program exited with any other nonzero code |
| `Watcher.OkExactly` | internal/sandbox/verdict.go:11-54 | the verdict is OK if and only if the program exited by itself with code 0 under the CPU limit, no memory kill, no output cut and no failed operation |
| `Watcher.OkMeansComplete` | internal/sandbox/containerd.go:222-250 | an OK verdict reports every byte the program wrote, for every interleaving of the two writers |
| `Watcher.RaceIsOle` | internal/sandbox/verdict.go:23-27 | after an overflow the verdict is output limit whichever of exit and limit signal the select picks |
| `Watcher.StopDecides` | internal/sandbox/verdict.go:23-53 | which verdicts are possible for which way out, output limit exactly for its stop or an overflow |
| `Watcher.OleMeansTooMuch` | internal/sandbox/verdict.go:23-27 | an output-limit verdict is no false alarm: more was written than fits, and the buffers are exactly full |
| `CompileCache.TouchKeeps` | internal/service/checker_compiler.go:68-71 | a lookup changes neither keys nor values |
| `CacheRecency.TouchOrder` | internal/service/checker_compiler.go:68-71 | a lookup puts the entry of its key first and keeps the order of the others |
| `CacheRecency.HoldsRecentlyUsed` | internal/service/checker_compiler.go:64-102 | in every interleaving the cache holds the 64 keys that were looked up or added last, the latest first, so an insertion drops the key used longest ago |
| `CacheRecency.CachedExactly` | internal/service/checker_compiler.go:64-102 | a key that was used is still cached if and only if fewer than 64 different other keys were looked up or added since |
| `CompileCache.PutNew` | internal/service/checker_compiler.go:92-94 | a new entry goes in front and only the oldest may be dropped, when the cache is full |
| `CompileCache.StepKeepsInv` | internal/service/checker_compiler.go:64-102 | every atomic step of every caller and flight keeps the protocol invariant |
| `CompileCache.OneFlightPerKey` | internal/service/checker_compiler.go:73-96 | in every interleaving at most one flight per key is unfinished; the cache holds at most 64 entries, each key once, successes only |
| `CompileCache.CacheConservation` | internal/service/checker_compiler.go:64-102 | a key's insertions are its evictions plus 1 if it is cached now; its compilations are its insertions, its failures and the one running, so without eviction or failure it is compiled at most once |
| `CompileCache.ReturnsOwnCompilation` | internal/service/checker_compiler.go:64-102 | every result returned came from compiling the caller's own source (for a collision-free digest) |
| `CompileErrors.ErrOnlyFromFailure` | internal/service/checker_compiler.go:73-101 | a caller gets an error only when the setup of a compilation of its own key failed in this run; a source that the compiler rejects is no error |
| `CompileCache.NeverStuck` | internal/service/checker_compiler.go:64-102 | while a caller has not returned, a step of it or of its flight is possible |
| `CompileCache.StepProgress` | internal/service/checker_compiler.go:64-102 | every step of a caller or of the flight it waits for brings the caller nearer to its return, and no other step takes it away |
| `CompileCache.ReturnsWithinSeven` | internal/service/checker_compiler.go:64-102 | in any further run at most seven steps concern a caller, and after seven it has returned |
| `Randomness.StepBijection` | support/testlib.h:760-764 | the generator step is a bijection on the 48-bit states, with its inverse given |
| `Randomness.StepInNumbers` | support/testlib.h:760-764 | the step leaves 25214903917 times the state plus 11, modulo 2^48 |
| `Randomness.DrawsUniform` | support/testlib.h:760-764 | every 31-bit value is drawn from exactly 2^17 of the 2^48 states |
| `Randomness.LowBitExactly` | support/testlib.h:828 | the test on `n & -n` finds exactly the powers of two |
| `Randomness.AcceptedExactly` | support/testlib.h:831-836 | for any other bound a draw is accepted if and only if the block of n numbers that it falls in lies below the largest int |
| `Randomness.Sample31Uniform` | support/testlib.h:824-840 | for every bound each result has the same number of accepted draws: 2^31/n for powers of two, INT_MAX/n otherwise |
| `Randomness.XorJoins` | support/testlib.h:771-774 | xor of a number without low bits and a small one is their sum |
| `Randomness.Join63Bijection` | support/testlib.h:765-775 | the joined halves are exactly the 63-bit numbers, each once |
| `Randomness.HalvesUniform` | support/testlib.h:849-861 | over a source of independent halves: for every bound each result of the 64-bit sampling has the same number of accepted joins |
| `Randomness.HalvesUniformUnlessVersion0` | support/testlib.h:765-775 | over a source of independent halves the 64-bit sampling is uniform for every bound if and only if the generator version is not 0 |
| `Randomness.Version0NeverJoins` | support/testlib.h:765-775 | the failing input: version 0, bound 2^32, where no halves give the result 2^31 |
| `Randomness.JoinableExactly` | support/testlib.h:765-775 | which 63-bit numbers independent halves can join to: all, or in version 0 those without bit 31 |
| `SamplingStates.EvenlyGivenExactly` | support/testlib.h:760-775 | both halves from one state: every residue of a 63-bit draw comes from equally many of the 2^48 states if and only if the bound is a power of two that fits the low half, up to 2^32, or 2^31 in version 0 |
| `SamplingStates.SmallPowerEven` | support/testlib.h:760-775 | for such a power of two each residue comes from exactly 2^48 / n states |
| `SamplingStates.UnevenAt33` | support/testlib.h:760-775 | the failing input above it: with bound 2^33 the results 2^32 and 2^32 + 1 come from different numbers of states |
| `SamplingStates.OnesOdd` | support/testlib.h:760-764 | of the first 2^j states an odd number follows a state with bit j set, for every j |
| `SamplingStates.SomeResultNeverGiven` | support/testlib.h:849-861 | in every version, for every bound above 2^48 some result is given by no state |
| `SamplingStates.LongNeverReturns` | support/testlib.h:849-861 | the failing input: with bound 2^49 the sampling never returns some result, from any state and with any number of rejections |
| `SamplingStates.States31Even` | support/testlib.h:824-840 | for every bound every result of the 31-bit sampling comes from equally many accepted states |
| `SamplingStates.FewRejected` | support/testlib.h:849-861 | for a power of two up to 2^32 at most 2^17 of the 2^48 states are rejected |
| `SamplingStates.AcceptedUnevenAt32` | support/testlib.h:849-861 | with bound 2^32 exactly 2^17 states are rejected, and the accepted ones are not shared evenly |
| `Randomness.Random.NextBits` | support/testlib.h:760-764 | one draw advances the state once and returns its top bits |
| `Randomness.Random.NextBits63` | support/testlib.h:765-775 | a 63-bit draw advances the state twice: 31 bits of the first state stand above 32 (in version 0: 31) bits of the second |
| `Randomness.Random.NextInt` | support/testlib.h:824-840 | fails for a bound that is not positive; else uses the first accepted draw, the top 31 bits of the state left behind: for a power of two the result is the number its top bits form, else n divides the draw less the result |
| `Randomness.Random.NextLong` | support/testlib.h:849-861 | fails for a bound that is not positive; else returns the residue of the first accepted 63-bit draw and leaves the state right behind it |
| `Permutations.ShuffledIsPerm` | support/testlib.h:1163-1177 | whatever is chosen, the result is a permutation of the values |
| `Permutations.LastChoice` | support/testlib.h:1163-1177 | the last choice puts the largest value at the chosen place, moves the value from there to the end and keeps all others |
| `Permutations.ShuffledReaches` | support/testlib.h:1163-1177 | every permutation is the result of some choices |
| `Permutations.ShuffledOnce` | support/testlib.h:1163-1177 | and of one choice sequence only |
| `Permutations.PermBijection` | support/testlib.h:1163-1177 | legal choice sequences and permutations correspond one to one |
| `Permutations.RearrangedByPerm` | support/testlib.h:4973-4978 | shuffling puts at each place the element whose index the permutation of the same choices has there; elements are kept |
| `Permutations.IotaRearranged` | support/testlib.h:1163-1177 | building a permutation is shuffling the ascending values |
| `Permutations.ShuffleInPlace` | support/testlib.h:4973-4978 | the in-place swaps compute the rearrangement |
| `Permutations.Perm` | support/testlib.h:1163-1177 | the fill loop and the swaps compute the permutation of the choices; negative sizes fail |
| `Partitions.Distinct` | support/testlib.h:1186-1221 | both branches give distinct values in range, as many as asked: the first distinct draws, or the front of a permutation; fails exactly in the listed cases |
| `Partitions.DrawDistinct` | support/testlib.h:1205-1212 | the rejection loop returns the first distinct draws, as many as asked |
| `Partitions.FirstSeenDistinct` | support/testlib.h:1206-1213 | values kept by the rejection loop are distinct and in range |
| `Partitions.KeptExactly` | support/testlib.h:1206-1213 | a draw is kept, behind those kept so far, exactly when it did not come before |
| `Partitions.PermDistinct` | support/testlib.h:1214-1218 | a permutation has no repeated value, so its front has none |
| `Partitions.PartsCompose` | support/testlib.h:1254-1266 | parts between increasing separators: their number, lower bound and sum, and they give the separators back |
| `Partitions.PartsBetween` | support/testlib.h:1254-1266 | each part is the number of places strictly between its two separators, plus the least part |
| `Partitions.MarksSeparate` | support/testlib.h:1254-1266 | every composition is given by its own increasing separators |
| `Partitions.StarsAndBars` | support/testlib.h:1251-1266 | separators and partitions correspond one to one |
| `Partitions.PartitionReaches` | support/testlib.h:1240-1281 | every partition is reached: its separators are possible draws |
| `DistinctCounts.ArrangementsCount` | support/testlib.h:1214-1218 | a set of n values has n! orders |
| `DistinctCounts.DistinctUniform` | support/testlib.h:1186-1221 | in the dense branch each sequence of distinct values of the range is the result of exactly (n - size)! choice sequences |
| `DistinctCounts.PartitionChoicesAre` | support/testlib.h:1240-1266 | which choice sequences make a given partition in the dense branch: those whose front is its separators in some order |
| `DistinctCounts.PartitionUniform` | support/testlib.h:1240-1266 | in the dense branch every partition comes from exactly (size - 1)! (last - size + 1)! choice sequences, the same number for all |
| `Partitions.OrderedIncreasing` | support/testlib.h:1254-1258 | sorting distinct separators makes them strictly increasing |
| `Partitions.Differences` | support/testlib.h:1260-1263 | the gap loop computes the number of places between neighbours |
| `Partitions.Gaps` | support/testlib.h:1254-1266 | sorting, differences and adding the minimum compute the parts |
| `Partitions.SelfCheck` | support/testlib.h:1268-1278 | the three final checks fire exactly on a wrong sum, a small part or a wrong number of parts |
| `Partitions.Partition` | support/testlib.h:1240-1281 | the result has the asked size, each part at least the minimum, and the given sum, so no final check ever fires; the four error cases exactly |
| `PlainDecimals.UpValue` | support/testlib.h:5624-5634 | one step of the first shift loop multiplies the value by ten, wherever the point is |
| `PlainDecimals.DownValue` | support/testlib.h:5635-5645 | one step of the second shift loop divides the value by ten |
| `PlainDecimals.TidiedNormal` | support/testlib.h:5646-5653 | the clean-up keeps the value and gives a normal form |
| `PlainDecimals.NormalUnique` | support/testlib.h:5646-5653 | a value has one normal form |
| `Exponential.WrapLaws` | support/testlib.h:5662-5680 | 32-bit wrapping of the running value commutes with each step, and is the identity exactly on 32-bit values |
| `Exponential.ExponentialKeepsValue` | support/testlib.h:5595-5655 | the result is the one normal signed decimal of mantissa times ten to the exponent, exactly, if and only if the exponent is not the smallest int or the mantissa is 0 |
| `Exponential.SmallestExponentLost` | support/testlib.h:5624-5645 | the failing input: 1e-2147483648 is read as 1, which is not what it denotes |
| `Exponential.RealOptValue` | support/testlib.h:5685-5717 | read as a number, the notation has the signed value of its mantissa times ten to its exponent, outside the failing case |
| `Exponential.IntegralOptValue` | support/testlib.h:5658-5682 | read as an integer, it is accepted with value v if and only if that number is the 32-bit integer v, outside the failing case |
| `Exponential.PlainRoundTrip` | support/testlib.h:5595-5655 | a normal decimal is its own reading, also with exponent 0 |
| `ExponentialNotation.NotationAccepted` | support/testlib.h:5595-5621 | a text with one mark, e or E, and maybe a plus sign on either side is accepted if and only if the part before it has at most 20 characters and is a decimal, and the part behind it has 1 to 20 and is a 32-bit integer |
| `ExponentialNotation.EveryNotation` | support/testlib.h:5595-5621 | every text with one mark has that form |
| `ExponentialNotation.OtherMarkCounts` | support/testlib.h:5596-5604 | without a mark a text is taken as it stands, with two or more it is refused |
| `ExponentialNotation.NotationValue` | support/testlib.h:5595-5655 | an accepted notation denotes its signed mantissa times ten to its exponent, outside the failing case |
| `ExponentialNotation.NonnegativeOpt` | support/testlib.h:5666-5671 | where a nonnegative integer is asked for, a minus sign is refused, even before a zero, and nothing else changes |
| `ExponentialNotation.IntegralText` | support/testlib.h:5658-5682 | decimal notations of 32-bit integers are read back, and those of other integers are refused |
| `ExponentialNotation.MinusInFront` | support/testlib.h:5666-5682 | a minus sign before digits negates them, leading zeros and the lone sign included |
| `ExponentialNotation.ScaledPowers` | support/testlib.h:5624-5645 | scaling by d and then by e is scaling by d + e, and scaling by one is times ten |
| `OptionValues.FindMark` | support/testlib.h:5596-5604 | finds the one exponent mark and fails on a second |
| `OptionValues.ParseExponentialOptValue` | support/testlib.h:5595-5655 | the whole function, its mutual recursion with both parsers included, computes the specified text and terminates |
| `OptionValues.Shift` | support/testlib.h:5624-5645 | the two loops shift by exactly the exponent; a wrapped negation shifts by none |
| `OptionValues.Tidy` | support/testlib.h:5646-5653 | the loops compute the clean-up |
| `OptionValues.OptValueToIntegral` | support/testlib.h:5658-5682 | wrapping arithmetic checked against the estimate accepts exactly the 32-bit integers |
| `OptionValues.OptValueToLongDouble` | support/testlib.h:5685-5717 | the digit loop computes the exact value and fails exactly on texts that are no decimal |
| `OptionValues.FractionSnoc` | support/testlib.h:5697-5713 | adding a digit over the growing power of ten is reading it behind the point |
| `EscapedText.EscapeRoundTrip` | support/testlib.h:6002-6035 | unescaping an escaped text gives it back without carriage returns, for every text |
| `EscapedText.EscapedSame` | support/testlib.h:6002-6016 | two texts escape alike if and only if they differ in carriage returns only |
| `EscapedText.WithoutCRExactly` | support/testlib.h:6005-6006 | what is lost are exactly the bytes 13 |
| `EscapedText.EscapedInBytes` | support/testlib.h:6002-6016 | byte by byte: 10 becomes backslash and n, 13 nothing, backslash and semicolon get a backslash in front, every other byte stays |
| `EscapedText.EscapesRead` | support/testlib.h:6021-6030 | backslash n, backslash semicolon and two backslashes are read as one byte |
| `EscapedText.OthersStay` | support/testlib.h:6021-6033 | any other backslash, also one at the end, stands for itself, like every other byte |
| `EscapedText.ItemsOfJoin` | support/testlib.h:6066-6084 | closed items joined by semicolons split into the same items whatever they hold |
| `EscapedText.JoinOfItems` | support/testlib.h:6066-6084 | splitting loses nothing: the items of any line joined by semicolons are the line |
| `EscapedText.ItemsClosed` | support/testlib.h:6066-6084 | no item has a bare semicolon, and only a backslash at the end of the line leaves an escape unfinished |
| `EscapedText.EscapedClosed` | support/testlib.h:6002-6016 | an escaped text is a closed item: no bare semicolon, no unfinished escape |
| `EscapedText.EscapeTestResultString` | support/testlib.h:6002-6016 | the loop computes the escaped text |
| `EscapedText.UnescapeTestResultString` | support/testlib.h:6018-6035 | the loop with its look-ahead computes the unescaped text |
| `EscapedText.Split` | support/testlib.h:6066-6084 | the splitting loop computes the items |
| `TestResults.VerdictRoundTrip` | support/testlib.h:5921-5960 | verdict names are read back, and no other text names a verdict |
| `ResultLines.VerdictNames` | support/testlib.h:5921-5960 | the ten names and the verdict each is read as |
| `TestResults.RoundedNear` | support/testlib.h:5978-5986 | printed points are within half a thousandth and printing them again changes nothing |
| `ResultLines.NearestExactly` | support/testlib.h:5978-5986 | rounding goes to the nearest thousandth, of two equally near ones to the even one |
| `ResultLines.PointsText` | support/testlib.h:5978-5986 | an optional minus sign, the whole part without a needless zero, a point and three decimals that denote the rounded points, cut at 63 characters |
| `TestResults.PointsRoundTrip` | support/testlib.h:5978-6000 | points come back at their printed precision if and only if the whole part is below ten to the free places of the 63-character buffer and no thousandths stand behind the last place left |
| `TestResults.FitsText` | support/testlib.h:5978-5986 | the numeric condition says that the printed whole part fits and only zero decimals are cut off |
| `TestResults.HugePointsLost` | support/testlib.h:5978-6000 | the failing input: two to the 210, which a double holds, does not come back |
| `TestResults.LineShape` | support/testlib.h:6037-6086 | a serialized record is one non-empty line that splits into exactly its twelve fields |
| `ResultLines.NumberPlaces` | support/testlib.h:6037-6103 | the index, verdict, points, time, memory and exit code stand at places 0, 3, 4, 5, 6 and 10 |
| `ResultLines.TextPlaces` | support/testlib.h:6037-6103 | test set, group, input, output, answer and comment stand at places 1, 2, 7, 8, 9 and 11 |
| `ResultLines.NumbersRead` | support/testlib.h:6088-6100 | a number is read behind white space and one optional sign up to the first byte that is no digit; without a digit there is none |
| `ResultLines.NumbersFit` | support/testlib.h:6088-6100 | a number that does not fit its 32 or 64 bits is refused |
| `TestResults.RecordRoundTrip` | support/testlib.h:6037-6103 | a record comes back with only carriage returns removed and points as printed, if and only if its points fit the buffer |
| `TestResults.FileRoundTrip` | support/testlib.h:6105-6131 | so does every list of records, through either line reader |
| `ResultLines.RecordsOfLines` | support/testlib.h:6105-6116 | a file is read if and only if every non-empty line is a record, and gives these records in order; empty lines are skipped |
| `TestResults.SerializeTestResult` | support/testlib.h:6037-6063 | the concatenation of the program is the joined line of the twelve fields |
| `TestResults.DeserializeTestResult` | support/testlib.h:6065-6103 | the splitting and field conversions compute the specified record or failure |
| `TestResults.ReadTestResults` | support/testlib.h:6105-6116 | the line loop computes the records of the non-empty lines, or fails when one fails |

## Left out

- `FileInputStreamReader` and `StringInputStreamReader`: the bundled checkers read their files through the buffered reader.
- File errors: `ferror`, a missing file and closing a stream; a reader starts on an open file of known content.
- Strict and validator modes, interactors, `_points` and partial scores: the checkers modelled here use none of them.
- Messages: the text of verdict messages, `compress` and the first elements that `ncmp` collects for its message.
- Counter overflow: the token counters of the checkers and the line number are unbounded.
- Partitions.Partition: integers are unbounded, so overflow of `min_part * size` and of array sizes is not modelled.
- PatternGenerator.NextReaches: counts and bounds are unbounded integers, so `to - from + 1` does not overflow; patterns with an unbounded repeat stop the program and are not generable.
- PatternRoundTrip.ParsePrint: numbers in braces are at most INT_MAX, because `sscanf` beyond the width of `int` is undefined, and sets list no NUL, which the program cannot list (`PatternLimits.NulAddsNothing`).
- PatternLimits.MisplacedGroupRejected: for printed expressions; text that is none may use a stray parenthesis as a character.
- PatternTree.ChainExactCondition: for trees without alternatives; with alternatives a word that one branch loses may be kept by another, and the condition is exact one node at a time (`GreedyExactCondition`).
- BufferedReader.Reader.RunScript: a skip follows a look that saw a character, and pushbacks stay within the room, as the program demands of its callers.
- TokenCheckers.Register: parsing of the command line and the unread input file, beyond its size, are not modelled.
- Randomness.Random.NextInt: the rejection loop ends only when some draw is accepted, so an accepted draw is assumed to come; that it comes almost surely is not stated.
- Randomness.Random.NextLong: as for `NextInt`, an accepted draw is assumed to come.
- Randomness.HalvesUniform: for two independent halves of an arbitrary source; what the one state behind both halves gives is stated in `SamplingStates`.
- SamplingStates.EvenlyGivenExactly: counts draws before rejection; after it the counts are shown uneven for bound 2^32 (`AcceptedUnevenAt32`) and nowhere above 2^48 / n for smaller powers of two (`SmallPowerEven`, `FewRejected`), but for which other bounds they are even is not stated.
- Partitions.Distinct: the floating-point estimate that chooses the branch is an arbitrary boolean, and the sparse branch assumes enough distinct draws.
- DistinctCounts.DistinctUniform: counts choice sequences of the dense branch; equal likelihood over the draws of the sparse branch is not counted.
- Other samplers: weighted choice (`wnext`), `any`, and graph or tree helpers only combine the draws above.
- Seeds: `setSeed` from a command line or a number.
- Floating point: `doubleCompare`, `stringToDouble`, the `rcmp` checkers and the scorer's average.
- OptionValues.OptValueToLongDouble: `long double` values are exact reals, so rounding of long fractions is not modelled.
- Exponential.ExponentialKeepsValue: signed overflow of `int` is taken as two's complement wrapping, and a lone minus sign with a negative exponent, where the program inserts before the start of a string, is the separate outcome `Undefined`.
- Exponential.IntegralOptValue: for the 32-bit instance that the exponent itself uses; other integer types differ only in their bounds.
- TestResults.PointsRoundTrip: points are the exact reals that doubles hold, infinities are left out, and reading exponents, hexadecimal digits or names of special values is not modelled, since printing never produces them.
- Watcher.OkMeansComplete: stdout and stderr are what the two writers were given; copying between the process and the writers is containerd's.
- Watcher.Task.WatchExecution: which side of the select in `waitForOutput` is ready first is an input, and so is the final state of the two writers.
- CompileCache.ReturnsOwnCompilation: assumes that the digest is injective.
- CompileCache.ReturnsWithinSeven: counts steps; that a scheduler takes them, and the time budget of the compilation, are not modelled.
- containerd, OCI specification, seccomp, image pulling, HTTP transport, workspace files, settings and logging: input, output and library plumbing.
- CPU pool, semaphores, request validation, language profiles and status aggregation: true but easy.
