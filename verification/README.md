# Verified models of arsh's algorithmic cores

arsh is a statically typed shell. This project models the parts of it whose correctness is not obvious
from reading them, in Dafny, and proves what they are for:

- **Brace expansion** (`Brace*.dfy`, `Decimal.dfy`): the backtracking machine with its choice stack, counter
  stack and rewound buffer lists exactly the left-to-right product of the alternatives, in order. The
  arithmetic of sequences (`{a..b..s}`) is exact in 64 bits, including reversal and zero padding.
- **Glob matching** (`Utf8.dfy`, `Glob*.dfy`): the matcher that remembers only the last `*`, against a
  declarative meaning of patterns; bracket expressions; escaping.
- **Job and process tables** (`JobObject.dfy`, `ProcTable.dfy`, `Job*.dfy`): the two sorted tables as a state
  machine, an invariant over every run, and the objects that update them in place.
- **Completion quoting** (`Quoting.dfy`, `QuoteRoundTrip.dfy`, `QuoteGrammar.dfy`, `Candidates.dfy`): quoted text is
  read back by the shell's own grammar, and exactly when unquoting a rewritten candidate gives the candidate back.
- **Code generation** (`CodeMachine.dfy`, `Codegen.dfy`, `CodegenCorrect.dfy`, `NamedArgs.dfy`): generated code
  for strings, short-circuit operators and arguments means what the expression means.
- **Sorting, searching, directory stack** (`SortSpec.dfy`, `MergeSort.dfy`, `SearchSorted.dfy`,
  `DirStack.dfy`).

`dafny verify dfyconfig.toml` checks the whole project.

## How the models are built

Code that works by updating variables or fields is a method or a class here, proved against a function on
values; the properties are lemmas about that function. Environment and I/O are parameters: what changing a
directory gives (`ChangeDir`), what evaluating an atom gives (`Env`), at which calls a comparator fails
(`fails`), which pid the kernel reports (`KernelReport`). Strings are byte strings, one `char` for one byte;
a `char` above 255 behaves like an invalid byte.

## Where a natural expectation does not hold

The code is modelled as it is. Where an expected property fails for some input, the exact condition is
proved.

- **Last-star matching, by bytes.** With "`*` is any byte string", the matcher is not complete: `*??` does not
  match a single three-byte character, although the star could end inside it. It is complete on all patterns if
  and only if the name has no valid UTF-8 sequence of three bytes or more (`GlobMatch.ExactNames`). On every
  other name it is still exact for each pattern that is aligned behind its first star: every `?` and every
  bracket there follows a literal character or another `?` or bracket, as in `*.t?t` (`GlobExact.PairExact`
  joins the two conditions). The condition on the pattern is not necessary: `*?` is exact on every name
  (`GlobExact.OneMarkExact`). For all pairs, `GlobMatch.VerdictBetween` puts the verdict between the two
  meanings.
- **Last-star matching, by whole characters.** When a star must not end inside a character, the matcher is not
  sound: `*[!é]` is reported to match the name `é`, because the star stops in the middle of it
  (`GlobExact.AccentExample`). It agrees with this meaning on all patterns if and only if no character of the
  name has several bytes (`GlobExact.WholeNames`), and on all names for patterns that are aligned from their
  start (`GlobExact.AlignedExact`).
- **Quoting.** The round trip fails with hexadecimal notation, and when the quoted word ends in a dangling
  backslash, the overlap itself ends in a backslash, and the remainder goes on (behind backslashes) with a
  character that needs escaping. `Candidates.RewriteRoundTrip` proves that it holds in all other cases and
  only there.
- **Quoting as a command.** The quoter leaves `=` bare, but the shell's grammar has no `=` in a command name: `a=b`
  quoted as a command is read as an assignment. `QuoteGrammar.QuotedCommand` gives the exact condition. As an
  argument every quoted text is read back as itself (`QuoteGrammar.QuotedReads`), except behind a carried backslash
  when it starts with hexadecimal notation (`QuoteGrammar.CarriedReads`).
- **Job ids** are 16 bits wide: `attach` gives the least unused id if and only if fewer than 65535 jobs are in
  the table (`JobKeeps.AttachGivesLeastId`). `JobLimit.ExceedLimit` builds a valid table of 65535 jobs and attaches
  one more, which gets the id 0 and breaks the table.
- **Pids.** An attached job must have pids that can be told apart from every entry, deleted ones included
  (`JobKeeps.AttachExact`). Since reports come in only while the shell waits, and every wait ends with a removal,
  no entry is deleted when a caller attaches a job; between calls it is enough that the pids differ from those of
  live processes (`JobCalls.CallKeeps`).
- **`findProc`** does not compare the pid it lands on (`ProcTables.FindProcExact`).
- **An empty token list** makes the expansion loop run zero times, so nothing is emitted, while the product of
  no alternatives is one empty list.
- **Reports.** `updateProcState` asserts that the entry it reaches is live and belongs to the reported pid. That
  is not checked when the entry is looked up, so it is a condition on the kernel's report here: the pid is
  tracked and live, or reaches no entry at all.

## Model

| member | source | states |
|---|---|---|
| `BraceExpansion.ApplyBraceExpansion` | src/expand.cpp:424-549 | for every well-nested token list the fragment lists emitted are exactly, and in the order of, the recursive reading; every index fits 8 bits, the buffer is never overrun, and the loop ends |
| `BraceTree.ExpandWord` | src/expand.cpp:424-549 | for every tree of nested alternatives and sequences the machine run on its tokens emits the left-to-right product |
| `BraceTree.WellNestedIsWord` | src/expand.cpp:424-549 | every well-nested token list is the flattening of such a tree, so its recursive reading is a product |
| `BraceTree.FlattenedWord` | src/expand.cpp:424-549 | flattening a tree gives a well-nested list whose recursive reading is the tree's product |
| `BraceTree.RunWord` | src/expand.cpp:433-469 | reading from the start of a word prepends the word's product to whatever follows it |
| `BraceText.ExpandPrints` | src/expand.cpp:167-202 | every value that gets into the buffer satisfies the formatter's assertion, and the printed lists are the left-to-right product of texts and numerals |
| `BraceExpansion.Process` | src/expand.cpp:434-494 | one token keeps the stack, the counters and the buffer in agreement with the choices made, and keeps what is still to be produced |
| `BraceExpansion.Backtrack` | src/expand.cpp:524-545 | gives up exactly the exhausted choice points and resumes the newest one with something left, losing no list |
| `BraceExpansion.FindOwnEntry` | src/expand.cpp:461-466 | at a separator or closer the binary search finds the entry of that very brace |
| `BraceExpansion.FindCloseIndex` | src/expand.cpp:439-452 | the level-counting scan finds the brace's own closer |
| `BraceExpansion.StackSorted` | src/expand.cpp:433-546 | in every reachable state the choice stack is strictly sorted by brace id |
| `BraceChoices.TodoPush` | src/expand.cpp:453-459 | pushing a choice point splits what is to be produced into the path taken and the rest |
| `BraceChoices.TodoResume` | src/expand.cpp:524-545 | resuming moves the next alternative or value from the backlog to the current path |
| `BraceChoices.MarkChoice` | src/expand.cpp:461-468 | the brace of a reached separator or closer has its choice point on the stack |
| `BraceRange.TryUpdateSeqValue` | src/brace.cpp:188-213 | the update yields the next value exactly when it neither overflows 64 bits nor leaves the range |
| `BraceRange.ValuesExact` | src/brace.cpp:188-213 | iterating it lists exactly begin, begin±step, ... up to the inclusive end |
| `BraceRange.ValuesBounded` | src/brace.cpp:188-213 | no listed value leaves the bounds |
| `BraceRange.NegativeStepReverses` | src/brace.cpp:140-166 | a negative step lists the reverse of what its absolute value lists |
| `BraceRange.ToBraceInt` | src/brace.cpp:32-77 | the parser of a bound computes its value, padding width and acceptance |
| `BraceRange.BraceIntLiteral` | src/brace.cpp:32-77 | a literal is accepted exactly when its value fits 64 bits, with the exact value |
| `BraceRange.StepBounds` | src/brace.cpp:140-166 | a parsed step keeps the range between the two written bounds |
| `BraceRange.FormatRoundTrip` | src/brace.cpp:172-186 | printing and parsing is the identity, and padding fills the width exactly |
| `BraceRange.EveryValuePads` | src/brace.cpp:88-186 | for every accepted padded range the formatter's assertion holds for every listed value, which prints with exactly the computed width and parses back |
| `BraceMeaning.IntegersMean` | src/brace.cpp:88-170 | from the text alone: `{b..e}` and `{b..e..s}` list the progression from the value of `b` towards that of `e` in steps of the magnitude of `s` (1 when absent or 0), reversed when `s` is negative, with the width of the padded bounds; a bound or step that does not fit is an error of its own kind |
| `BraceMeaning.CharactersMean` | src/brace.cpp:88-170 | the same for two characters |
| `BraceMeaning.CharacterPrints` | src/brace.cpp:172-186 | a listed character prints as the one character with its code |
| `BraceMeaning.WidthWritten` | src/brace.cpp:131-137 | the width is 0 when no bound is zero-padded, otherwise the larger of the two written or printed lengths |
| `BraceMeaning.OneToThree` | src/brace.cpp:88-170 | `{1..3}` lists 1, 2, 3 and `{3..1}` lists 3, 2, 1 |
| `BraceTokens.AcceptedRangeOk` | src/brace.cpp:88-170 | everything an accepted range can list can be printed |
| `Decimal.ConvertToNum10` | src/misc/num_util.hpp:166-278 | accepts an optional plus sign and digits below 2^64, with their value, and nothing else |
| `Decimal.NumeralsRead` | src/misc/num_util.hpp:166-278 | every number below 2^64 is read from its numeral, with a plus sign or without, and a larger one is not |
| `Decimal.NothingElseRead` | src/misc/num_util.hpp:166-278 | no other text is read |
| `GlobMatch.ScanSound` | src/glob.cpp:57-126 | a reported match is a match, and the scanner stands at the end of the component |
| `GlobMatch.ScanComplete` | src/glob.cpp:57-126 | without a reported match there is none, neither here nor where the remembered star could still match |
| `GlobMatch.VerdictBetween` | src/glob.cpp:57-126 | for all patterns and names: a match by whole characters is reported, and what is reported matches byte by byte; `PairExact`, `ExactNames` and `WholeNames` say when the one or the other is an equality |
| `GlobExact.PairExact` | src/glob.cpp:57-126 | the verdict is exact byte by byte for every pattern on names without sequences of three bytes or more, and on every name for patterns aligned behind their first star |
| `GlobExact.AlignedExact` | src/glob.cpp:57-126 | for patterns aligned from their start it is exact on every name, by bytes and by whole characters alike |
| `GlobExact.SameReading` | src/glob.cpp:57-126 | an aligned pattern means the same by bytes and by whole characters |
| `GlobExact.OneMarkExact` | src/glob.cpp:57-126 | `*?` is exact on every name although it is not aligned |
| `GlobExact.WholeNames` | src/glob.cpp:57-126 | the names on which the matcher agrees with the whole-character meaning for all patterns are exactly those without characters of several bytes |
| `GlobExact.CharacterSplit` | src/glob.cpp:57-126 | for each character of several bytes, a pattern whose reported match splits it |
| `GlobExact.AccentExample` | src/glob.cpp:57-126 | `*[!é]` is reported to match `é` |
| `GlobMatch.ExactNames` | src/glob.cpp:57-126 | those are exactly the names on which the matcher agrees with the byte-wise meaning for all patterns |
| `GlobMatch.LongSequenceMissed` | src/glob.cpp:57-126 | for each long sequence, a pattern whose match is missed |
| `GlobMatch.ThreeByteExample` | src/glob.cpp:57-126 | `*??` misses one three-byte character |
| `Utf8.StepMonotone` | src/misc/unicode.hpp:190-230 | the code-point step is monotone towards character boundaries, and everywhere without long sequences |
| `Utf8.StepNotMonotone` | src/misc/unicode.hpp:190-230 | with a longer sequence it is not monotone |
| `GlobScanner.GlobPatternScanner.Match` | src/glob.cpp:30-126 | `.` and `..` are compared literally and never MATCHED; a hidden name is refused without DOTGLOB unless the component starts with a literal dot; every other name is MATCHED exactly if the scan matches, or empty patterns are allowed and the component is empty, and BAD_PATTERN exactly if the scan says so; on MATCHED the scanner is at the component's end |
| `GlobScanner.GlobPatternScanner.MatchFrom` | src/glob.cpp:57-126 | the loop over name and pattern with one remembered star computes the scan |
| `GlobLaws.LoneStar` | src/glob.cpp:91-98 | `*` matches every name |
| `GlobLaws.LoneMark` | src/glob.cpp:64-80 | `?` matches exactly one character or one invalid byte |
| `GlobLaws.SlashEnds` | src/glob.h:298-298 | what follows a slash plays no part |
| `GlobLaws.Backslashes` | src/glob.cpp:99-112 | a backslash makes what follows a literal, and stands for itself at the very end |
| `GlobLaws.GoodPattern` | src/glob.cpp:57-126 | a pattern whose brackets are well formed is never reported as bad |
| `GlobLaws.BadBracketReported` | src/glob.cpp:57-126 | a malformed bracket is reported as soon as it is reached inside the name |
| `GlobLaws.ClassTable` | src/glob.cpp:224-255 | which ASCII characters each class name stands for |
| `GlobLaws.ClassLaws` | src/glob.cpp:224-255 | how the classes are made up of each other |
| `GlobLaws.NoOtherMembers` | src/glob.cpp:224-255 | no code point outside of ASCII is in a class |
| `GlobLaws.PlainRange` | src/glob.cpp:131-222 | two characters with a dash between them are a range, malformed in the wrong order |
| `GlobLaws.EdgeForms` | src/glob.cpp:131-357 | empty and unclosed expressions, a closing bracket or a dash as a member |
| `GlobLaws.BadForms` | src/glob.cpp:131-357 | an unknown or unclosed class, a class as the end of a range and a dash in the middle are malformed |
| `GlobScanner.GlobPatternScanner.MatchCharSet` | src/glob.cpp:131-222 | whether a bracket expression is malformed and where it ends is the same for all code points, and the verdict is membership in the union of its items, flipped by `!` or `^` |
| `GlobScanner.GlobPatternScanner.MatchItem` | src/glob.cpp:152-214 | one item of a bracket expression is read and compared |
| `GlobScanner.GlobPatternScanner.TryMatchCharClass` | src/glob.cpp:257-301 | a character class is recognised, absent, unclosed or unknown as the grammar says, each with its own status |
| `GlobScanner.GlobPatternScanner.ConsumeCharSetPart` | src/glob.cpp:303-357 | one end of a range is read with its escapes |
| `GlobScanner.GlobPatternScanner.MatchLiteral` | src/glob.cpp:99-112 | a byte is compared with the literal, escaped or not, and the scanner moves behind it exactly if they agree |
| `GlobPrint.EncodeDecodes` | src/misc/unicode.hpp:190-286 | decoding undoes encoding, for every code point that is no surrogate |
| `GlobPrint.DecodeEncodes` | src/misc/unicode.hpp:190-286 | a sequence is valid exactly if it is the shortest encoding of a code point that is no surrogate |
| `GlobPrint.BracketRead` | src/glob.cpp:131-357 | every list of ranges and classes can be written, complemented or not, and is read back as exactly that list, wherever its text stands |
| `GlobPrint.ReadWritable` | src/glob.cpp:131-357 | nothing else is ever read |
| `GlobScanner.GlobPatternScanner.MatchDots` | src/glob.h:310-330 | counts the dots exactly when the component is `.` or `..` and the name equals it |
| `GlobEscape.AppendAndEscapeGlobMeta` | src/glob.cpp:673-705 | appends the escaped text exactly when the result fits the limit |
| `GlobEscape.AppendAsUnescaped` | src/format_util.h:89-102 | appends the unescaped text as far as the limit lets it |
| `GlobEscape.UnescapeEscape` | src/glob.cpp:673-705 | unescaping undoes escaping, for every text |
| `GlobEscape.UnescapeCases` | src/format_util.h:89-102 | a backslash escapes what follows it, and one at the very end stays |
| `GlobEscape.EscapeUnchanged` | src/glob.cpp:673-705 | exactly the eight marks of patterns and brackets get a backslash |
| `GlobEscape.EscapedInBracket` | src/glob.cpp:673-705 | inside brackets, too, an escaped ASCII character stands for itself alone |
| `GlobEscape.EscapedMatchesItself` | src/glob.cpp:30-126 | an escaped text without `/` matches a name if and only if the name equals it |
| `JobObjects.UpdateProc` | src/job.cpp:222-252 | a done process ignores reports; an exit or a fatal signal ends a live one, a stop stops it, a continuation lets it run, each with its status and flags; the pid stays |
| `JobObjects.JobObject.UpdateState` | src/job.h:373-385 | an available job becomes terminated exactly when all its processes are done |
| `ProcTables.ProcTable.AddProcess` | src/job.cpp:464-474 | an entry is inserted at its sorted place exactly when the pid is new and valid |
| `ProcTables.ProcTable.Add` | src/job.h:450-454 | every live process of the job is offered to the table |
| `ProcTables.ProcTable.FindProc` | src/job.cpp:476-484 | the binary search lands on the first entry not below the pid |
| `ProcTables.FindProcExact` | src/job.cpp:476-484 | what it lands on has the asked pid exactly when the pid is in the table or above every entry |
| `ProcTables.FindProcLandsElsewhere` | src/job.cpp:476-484 | a concrete untracked pid whose lookup lands on another entry |
| `ProcTables.ProcTable.DeleteProc` | src/job.h:477-482 | the entry is marked and counted once |
| `ProcTables.ProcTable.BatchedRemove` | src/job.cpp:496-516 | swap compaction keeps exactly the live entries in their order |
| `ProcTables.LiveEntriesAre` | src/job.cpp:496-516 | the live entries are sorted, none deleted, and their number is the size less the deleted count |
| `ProcTables.AddJobBounds` | src/job.h:450-454 | adding a job changes no entry and adds only entries of that job |
| `ProcTables.AddJobCovers` | src/job.h:450-454 | with distinguishable pids every live process gets its entry |
| `JobTables.JobTable.FindEmptyEntry` | src/job.cpp:650-665 | the binary search finds the first index whose job does not have the id index plus one |
| `JobKeeps.PrefixProperty` | src/job.cpp:650-665 | "id equals index plus one" holds for a prefix of the table |
| `JobKeeps.AttachGivesLeastId` | src/job.cpp:522-539 | the id given is the least positive unused one if and only if fewer than 65535 jobs are in the table |
| `JobTables.JobTable.FindIndex` | src/job.cpp:673-681 | finds the one job with the id, or none |
| `JobTables.JobTable.Find` | src/job.h:669-675 | a job is found by its id unless it is disowned |
| `JobTables.JobTable.Attach` | src/job.cpp:522-539 | the whole new state, and that the table stays valid if and only if the job fits |
| `JobKeeps.AttachExact` | src/job.cpp:522-539 | attaching keeps the invariant if and only if there is room and the live pids can be told apart |
| `JobTables.JobTable.SetCurrentJob` | src/job.h:630-639 | the new current job, the old one becoming previous unless disowned |
| `JobTables.JobTable.SyncAndGetCurPrevJobs` | src/job.cpp:557-586 | the new current and previous job |
| `JobSync.AfterSync` | src/job.cpp:557-586 | an owned current job stays, a disowned one is replaced by an owned previous one, an owned pair is unchanged; what is then missing is the candidate with the highest id, if there is one; both are owned, in the table and distinct |
| `JobSync.SyncTwice` | src/job.cpp:557-586 | a second sync changes nothing |
| `JobLaws.AfterSetCurrent` | src/job.h:630-639 | which jobs become current, and that the old current job becomes previous unless it is disowned |
| `JobLaws.AfterAttach` | src/job.cpp:522-539 | what attaching changes: the table, the job, the current and previous job, the top-level last pipe |
| `JobLaws.RemoveMovesUp` | src/job.cpp:715-762 | a terminated current job is replaced by a previous one that is alive, when a job is dropped, and only then |
| `JobLaws.AfterLoseControl` | src/job.h:597-603 | losing control touches the state of the jobs in the table alone |
| `JobLaws.ReportSyncs` | src/job.cpp:683-701 | a report syncs exactly when the first process after a compaction ends and jobs are announced |
| `JobLaws.NoProcessNoChange` | src/job.cpp:476-484 | a report without a positive pid changes nothing |
| `JobTables.JobTable.UpdateProcState` | src/job.cpp:683-701 | the whole new state after a report, and that the job and offset returned are those of the reported process |
| `JobRuns.ReportIs` | src/job.cpp:683-701 | a report for a tracked live pid changes exactly that process, its entry and its job |
| `JobRuns.ReportKeeps` | src/job.cpp:683-701 | such a report keeps the invariant |
| `JobTables.JobTable.RemoveTerminatedJobs` | src/job.cpp:715-762 | the whole new state after a removal, compaction by swaps included |
| `JobRuns.AfterRemove` | src/job.cpp:715-762 | afterwards no entry is deleted and no job in the table is terminated; the others are kept unchanged; removed jobs lose id and owner |
| `JobRuns.RemoveKeeps` | src/job.cpp:715-762 | a removal keeps the invariant |
| `JobTables.JobTable.LoseControlOfJobs` | src/job.h:597-603 | every job in the table becomes uncontrolled and the process table empty |
| `JobTables.JobTable.RemoveToplevelLastPipeJobIfSame` | src/job.h:647-651 | forgets the job exactly if it is the last-pipe job |
| `JobTables.JobTable.CreateJob` | src/job.cpp:273-285 | a new job is available, owned and has no id; the table stays valid exactly if one of its processes is live |
| `JobTables.JobTable.WaitForAny` | src/job.cpp:541-555 | the reports are taken in one by one, then the terminated jobs are removed; the table is valid and nothing is left to compact |
| `JobRuns.StepKeeps` | src/job.cpp:522-762 | every enabled step keeps the invariant: both tables sorted, every live entry owned by a live process of an available job with that pid, every such process entered, a controlled job terminated exactly when its processes are, current and previous job consistent |
| `JobRuns.RunKeeps` | src/job.cpp:522-762 | so does every run |
| `JobCalls.CallKeeps` | src/job.cpp:522-648 | every call finds and leaves the table consistent with no entry deleted, given that live processes have distinct pids and the table has room |
| `JobCalls.CallsKeep` | src/job.cpp:522-648 | so does every sequence of calls; no job in the table is terminated when a call returns |
| `JobLimit.FillTable` | src/job.cpp:522-539 | a valid table of any size up to 65535 jobs can be built |
| `JobLimit.ExceedLimit` | src/job.cpp:522-539 | one job more gets the id 0, which is not the least unused one, and breaks the table |
| `JobRuns.RunLater` | src/job.cpp:222-762 | over every run: a done process never changes, a job keeps its id until it is removed for good and is never attached twice, a disowned job stays disowned |
| `JobRuns.RunKeepsOrder` | src/job.cpp:715-762 | jobs that survive a run keep their ids and their order |
| `Quoting.UnquoteCmdArgLiteral` | src/format_util.cpp:159-181 | the loop computes unquoting, with line continuations and a dangling backslash dropped |
| `Quoting.QuoteAsCmdOrShellArg` | src/format_util.cpp:56-126 | the loop appends the quoted text and reports whether it used hexadecimal notation |
| `QuoteGrammar.QuotedReads` | src/format_util.cpp:56-126 | for every byte string the quoted text is one argument of the shell's grammar and its value is that string, hexadecimal notation included |
| `QuoteGrammar.CarriedReads` | src/format_util.cpp:56-126 | behind a carried backslash this holds exactly if there is something to escape and it needs no hexadecimal notation |
| `QuoteGrammar.Unchanged` | src/format_util.cpp:83-121 | exactly the texts of letters, digits, harmless marks and longer characters stay as they are |
| `QuoteGrammar.QuotedCommand` | src/format_util.cpp:61-69 | quoted as a command, a text is one command name exactly if it is not empty, needs no hexadecimal notation and has no equals sign |
| `QuoteGrammar.EqualsStaysBare` | src/format_util.cpp:61-69 | `a=b` stays bare and is no command name |
| `QuoteGrammar.UnquoteKeepsEscapes` | src/format_util.cpp:159-181 | without unescaping, the escapes stay, and taking them away later gives what full unquoting gives |
| `QuoteGrammar.ContinuationDropped` | src/format_util.cpp:159-181 | a line continuation counts for nothing |
| `Quoting.CodePointCases` | src/format_util.cpp:84-108 | every escaped code point is a single byte (the assertion in the switch) |
| `QuoteRoundTrip.UnquoteQuoteFrom` | src/format_util.cpp:56-126 | quoted text is complete, unquotes to the original without hexadecimal notation, and is five bytes longer for each |
| `QuoteRoundTrip.UnquoteAfterBackslash` | src/format_util.cpp:56-126 | behind a dangling backslash the same holds exactly when the remainder does not clash |
| `QuoteRoundTrip.UnquoteCarried` | src/format_util.cpp:56-126 | with the backslash carried over, the round trip holds for every remainder without hexadecimal notation |
| `Candidates.RemovePrefix` | src/comp_context.h:69-85 | the loop trims token and word by the same characters |
| `Candidates.TrimInStep` | src/comp_context.h:69-85 | the trimmed token unquotes to the trimmed word, and a dangling backslash stays |
| `Candidates.CarryMeansDangling` | src/comp_context.h:87-89 | a backslash is carried exactly when it dangles and the word does not end in one |
| `Candidates.ResolveCommonPrefixStr` | src/candidates.cpp:110-150 | the loops compute the common prefix, cut to valid UTF-8 |
| `Candidates.CommonPrefixShared` | src/candidates.cpp:110-150 | every candidate starts with it |
| `Candidates.CommonSizeMaximal` | src/candidates.cpp:119-135 | no longer byte prefix is shared by all candidates |
| `Candidates.CommonPrefixLongest` | src/candidates.cpp:110-150 | of several candidates it is the longest valid UTF-8 text with which all start, of one it is all of it |
| `Candidates.ValidLongest` | src/candidates.cpp:137-149 | what the cut keeps is valid and no longer part is |
| `Candidates.ResolveQuotedCandidatePrefix` | src/candidates.cpp:159-186 | the search finds the longest suffix of the word that starts the candidates |
| `Candidates.OverlapLeast` | src/candidates.cpp:167-173 | no earlier offset of the word starts the candidates |
| `Candidates.OverlapInCandidate` | src/candidates.cpp:215-219 | every candidate starts with the overlap (the assertion in the loop) |
| `Candidates.CandidatesObject.QuoteAll` | src/candidates.cpp:204-229 | when token, quoted remainder, description and mark fit 2^31-1 bytes, the text is the token followed by the quoted remainder; it then unquotes to the old text exactly if no hexadecimal notation is needed and the carry does not miss, and is the old text or longer; otherwise the entry is unchanged; description and kind stay |
| `Candidates.DescriptionSizes` | src/candidates.cpp:51-75 | an own description counts for the limit, otherwise that of the kind |
| `Candidates.CandidatesObject.Add` | src/candidates.cpp:231-238 | appends unless the size limit is reached |
| `Candidates.RewriteRoundTrip` | src/candidates.cpp:204-229 | unquoting a rewritten candidate gives the candidate back if and only if no hexadecimal notation is needed and the carry does not miss, for every quoted word and candidate list |
| `Candidates.RewriteGrows` | src/candidates.cpp:222-225 | a rewritten candidate that differs is strictly longer, for all inputs |
| `Candidates.MissedCase` | src/candidates.cpp:204-229 | a concrete case in which the carry misses |
| `CodegenCorrect.GenCorrect` | src/codegen.cpp:790-834 | code of any expression, anywhere and on any stack, pushes exactly its value or raises its error after evaluating the same atoms in the same order |
| `CodegenCorrect.PushCorrect` | src/codegen.cpp:424-476 | concatenation code without an accumulator pushes the string |
| `CodegenCorrect.AppendCorrect` | src/codegen.cpp:424-476 | with an accumulator it appends the node's text, flattened or not |
| `CodegenCorrect.ProgramCorrect` | src/codegen.cpp:412-476 | a whole program ends with one value or the error and never gets stuck, so an interpolation always has a string below it |
| `CodegenCorrect.EvalTyped` | src/codegen.cpp:412-422 | values have the static type on which the choice of concatenation rests |
| `CodegenCorrect.ShortCircuits` | src/codegen.cpp:790-822 | which side of `&&`, of the or operator and of `??` decides, and that the other one is not evaluated |
| `CodegenCorrect.PartReads` | src/codegen.cpp:424-476 | inside a string an embedded value is interpolated and another value appended as its text |
| `Codegen.ByteCodeGenerator.Visit` | src/codegen.cpp:790-834 | the generator appends exactly the code of the node |
| `Codegen.ByteCodeGenerator.VisitAnd` | src/codegen.cpp:792-814 | `&&` with both labels patched |
| `Codegen.ByteCodeGenerator.VisitOr` | src/codegen.cpp:792-814 | the or operator, with both labels patched |
| `Codegen.ByteCodeGenerator.VisitCoalesce` | src/codegen.cpp:815-822 | `??` with its label patched |
| `Codegen.ByteCodeGenerator.GenerateConcat` | src/codegen.cpp:424-476 | the generator appends exactly the concatenation code of the node |
| `NamedArgs.VisitArgs` | src/codegen.cpp:836-858 | the loops append exactly the code of the arguments |
| `NamedArgs.OffsetInRange` | src/codegen.cpp:852-857 | every offset stays among the placeholders and fits its byte |
| `NamedArgs.StoreCorrect` | src/codegen.cpp:848-857 | the offset reaches exactly the slot of the named parameter |
| `NamedArgs.ArgsCorrect` | src/codegen.cpp:836-858 | arguments are evaluated in source order and leave one slot per parameter: positional value, named value or placeholder; an error stops the evaluation |
| `MergeSort.Sort` | src/core.cpp:993-1029 | without a failing comparison the array is sorted and stable; in any case it is a permutation; at most ceil(log2 n) + 1 frames are held; the midpoint sum stays in 32 bits |
| `MergeSort.MergeRuns` | src/core.cpp:935-971 | two runs are replaced by their merge, or nothing is written when a comparison fails |
| `MergeSort.FillBuffer` | src/core.cpp:935-967 | the buffer receives the merge |
| `MergeSort.GetStackDepth` | src/core.cpp:973-981 | the least depth whose power of two covers the size |
| `MergeSort.StartKeepsChain` | src/core.cpp:1003-1019 | starting a half keeps the frames nested and their number bounded |
| `MergeSort.FinishKeeps` | src/core.cpp:999-1026 | finishing a frame leaves its parent with one more sorted half and disturbs no waiting half |
| `SortSpec.MergeSortedIs` | src/core.cpp:993-1029 | merge sort yields a sorted permutation |
| `SortSpec.MergeSortedStable` | src/core.cpp:993-1029 | equivalent elements keep their order |
| `SortSpec.SortedStableUnique` | src/core.cpp:993-1029 | sorted and stable leaves only one result |
| `SortSpec.MergeIsStable` | src/core.cpp:935-967 | merging keeps equivalent elements in order, left run first |
| `SearchSorted.Search` | src/core.cpp:1043-1069 | the result is the insertion point, not negative exactly when an equal element is there; a failing comparison ends the search, or counts as unequal in the last step |
| `SearchSorted.AnswerUnique` | src/core.cpp:1043-1069 | there is only one such result |
| `SearchSorted.FoundLeftmost` | src/core.cpp:1064-1068 | a found index is the leftmost of an equal element |
| `SearchSorted.InsertKeepsSorted` | src/core.cpp:1064-1067 | inserting at the returned point keeps the array sorted |
| `DirStack.Dirs.Pushd` | src/cmd_dirs.cpp:250-317 | the exact status; an index turns the shown list so that the selected entry comes first; a directory is pushed; no operand swaps; nothing changes on an error |
| `DirStack.Dirs.Popd` | src/cmd_dirs.cpp:318-331 | the exact status and the new directory and stack |
| `DirStack.PushdAnswers` | src/cmd_dirs.cpp:250-317 | exactly when `pushd` refuses, and with which status |
| `DirStack.PopdAnswers` | src/cmd_dirs.cpp:250-331 | exactly when `popd` refuses, and with which status |
| `DirStack.TruncatedIs` | src/cmd_dirs.cpp:235-237 | a stack over 255 entries loses its top ones first |
| `DirStack.Dirs.Turn` | src/cmd_dirs.cpp:308-315 | the loop moves the entries above the selected one, and the old directory, to the bottom |
| `DirStack.TurnedIsRotation` | src/cmd_dirs.cpp:302-316 | that is the cyclic rotation of the shown list, so the directories are conserved |
| `DirStack.PopRemoves` | src/cmd_dirs.cpp:318-331 | `popd` takes exactly the selected entry out of the shown list |
| `DirStack.OperandSelects` | src/cmd_dirs.cpp:250-273 | `+N` is entry N of the shown list, `-N` entry N from its end |

## Left out

- Path concatenation and globbing of a finished fragment list, tilde expansion, string-size errors and cancellation in `src/expand.cpp`: the sink is "append this list of fragments".
- Directory walking, `**` and base-directory extraction in `src/glob.cpp`: file-system state.
- Locale tables: character classes are those of the C locale; code points above 127 belong to none.
- Process creation, waiting, signals, terminal control and job formatting in `src/job.cpp`: reports are inputs of the model, and `waitForAny` and `waitForJob` are runs of its steps.
- `JobTable::lookup` and its job-spec syntax: a thin dispatch over `find`, the sync and `findProc`.
- The counter of deleted entries is unbounded in the model; the invariant bounds it by the number of entries.
- Small-string and object representation in `replaceCandidate`, sorting and de-duplication of candidates.
- Byte encoding of instructions, `finalize` with its 16-bit offset check, and the stack-depth counter in `src/codegen.cpp`: jumps count instructions, and a label is patched when it is marked.
- Every other kind of expression in `src/codegen.cpp`: an atom with a type and an arbitrary outcome; string-size errors of a concatenation.
- `+=` on strings (the `APPEND` instruction) and embeds in command arguments.
- The array lock during sorting and searching.
- Printing in `src/cmd_dirs.cpp`, apart from the order of the entries shown.
- CompPrefix: a value that `RemovePrefix` returns, not updated in place; nothing shares it.
- Other parts of arsh (lexer, parser, type checker, virtual machine, line editor, builtins): not part of this model.
