# Models of the conductor's stateful cores

AI Conductor keeps the authority of a build in small files: a log of operator decisions, a
case store with an outbox, evidence markers, persisted verdicts. It also reads shell text,
Markdown and diffs with hand-written scanners. This project models those cores in Dafny and
proves what they promise, over every input and every run.

`dafny verify dfyconfig.toml` checks everything.

## The models

- **The accepted-widening decision log** (`DecisionLog`, `DecisionCodec`, `DecisionStore`,
  `DecisionRuns`, `DecisionAnswers`, `AcceptedWideningStore`, `DecisionWriters`). The store is a
  class over a disk. One append or migration is a plan made from what was read, followed by an
  atomic replacement that may fail; `DecisionAnswers` tells every answer from the stored decisions
  alone. `DecisionWriters` breaks the calls of any number of stores into small steps
  around a mutually exclusive lease.
- **The interpreter-source checker** (`ShellText`, `ShellWords`, `ShellCommands`, `ShellPlaces`,
  `ShellLines`, `ShellTokens`, `WrittenWords`, `WrittenCommands`, `InterpreterCheck`, `SourceText`,
  `SourceWords`, `FindingLines`, `FindingSources`, `InterpreterExample`). The scanner is specified
  with positions as labels; the program maps positions to lines through closures. The two are
  related by relabelling. `FindingSources` tells which findings a text has, `FindingLines` where
  they lie.
- **As-built case reconciliation** (`CaseReconciliation`, `CaseReplay`, `CaseStatus`): the case store
  as the replay of its outbox, and the status of every case over runs.
- **The manual-test gate and the RED self-heal** (`ManualTestGate`, `ManualTestVerdict`,
  `RedSelfHeal`, `RedEvidence`): objects over marker files, with safety over runs, and what a
  verdict means in the texts and fields themselves.
- **Readers with a specification to meet or invert** (`MigrationFences`, `MigrationFenceLines`,
  `FindingIds`, `AsBuiltVerdict`, `AsBuiltAcceptance`, `AsBuiltVerdictStore`, `AsBuiltReading`,
  `ObligationTable`, `ObligationCoverage`, `ObligationCells`, `GitPaths`, `DiffProjection`,
  `DiffFiles`): the method is proved against a specification, and a module beside it tells that specification in terms of
  characters, lines, cells and fields.
- **The daemon's drain** (`DrainTeardown`): the scaled teardown and its quadratic bound.

`Json` holds parsed documents, whitespace and text helpers.

## Assumptions

- A lease is mutually exclusive, and giving it up never throws. `rename` is atomic.
- A write of an evidence marker happens as a whole or not at all.
- Clocks do not go back behind the start of the session. Timers are punctual.
- Git, run identities, code validity, file times, generated ids and hashes are parameters.
- JSON documents are values: their text syntax and the order of fields are not modelled, and two
  decision lists with equal JSON text are equal lists.
- JavaScript strings are sequences of characters. Lengths count characters, not UTF-16 code
  units, except in `GitPaths`, where the difference matters.

## What the proofs show about the code

- Interpreter checker: a heredoc opened after the closing quote of a multi-line source is queued
  with line 1 (`SuffixHeredocsMisplaced`, on a text in `MisplacedExample`), and a finding can name
  a line past the end of the text (`OverrunExactly` says when, `OverrunExample` gives a text).
- Reconciliation: a linked result that is dropped because its case does not exist still hides a
  later result for the same finding (`RecordedExactly`, with results in `DroppedResultHides`).
- Projection: a rename that needs quotes on one side only is never read (`MixedHeaderRefused`,
  `QuotedNewNeverRead`); a bare path that holds ` b/` is cut short (`PlainHeader`; all forms together
  in `NewNameExactly`); with `core.quotePath` off, characters of two code units are lost
  (`DecodeQuoteText`).
- Manual-test gate: an unreadable marker counts as none. One clean evaluation that cannot read it is
  done at the unchanged head and destroys the recorded FAIL (`UnreadableMarkerLosesFail`);
  `GuardReleasesExactly`, `GuardHolds` and `NoWhitewash` say that nothing else does.

## Model

| member | source | states |
|---|---|---|
| DecisionLog.HasValidRelationships | src/conductor/src/engine/accepted-widenings.ts:203-224 | The one pass with a growing set of offers accepts a numbered log exactly when every decision may follow the ones before it |
| DecisionLog.CaseChain | src/conductor/src/engine/accepted-widenings.ts:194-224 | In every valid log, following `supersedes` from any decision of a case visits exactly the decisions of that case up to it, each once, newest first, and stops at the first |
| DecisionLog.CaseHistoryComplete | src/conductor/src/engine/accepted-widenings.ts:194-224 | The history a chain is compared with lists a case strictly downwards in revision and misses no decision of it |
| DecisionLog.FirstOfCase | src/conductor/src/engine/accepted-widenings.ts:214-221 | A decision supersedes nothing if and only if no earlier decision is of its case |
| DecisionLog.OfferFromPredecessor | src/conductor/src/engine/accepted-widenings.ts:207-213 | A decision that carries an offer already used takes it from its direct predecessor in its own case |
| DecisionLog.OfferLocality | src/conductor/src/engine/accepted-widenings.ts:203-224 | Two decisions that share an offer, however far apart, are of one case, and every decision of that case between them carries the offer: an offer is one contiguous segment of one chain |
| DecisionLog.LinkedExtension | src/conductor/src/engine/accepted-widenings.ts:203-224 | A log with one more decision is linked if and only if the old one was extended by the next revision, a new id and a decision that may follow |
| DecisionCodec.DecisionCodec | src/conductor/src/engine/accepted-widenings.ts:226-263 | A document reads as a decision if and only if it is that decision's printed form and the decision is well formed |
| DecisionCodec.StateCodec | src/conductor/src/engine/accepted-widenings.ts:265-280 | A document reads as a log if and only if it is the printed form of that log and the log is valid: the reader inverts the writer and no other document reads as it |
| DecisionCodec.TrimmedInputWellFormed | src/conductor/src/engine/accepted-widenings.ts:484-517 | The trimming of an accepted append input never produces an entry that the stored form would refuse |
| AcceptedWideningStore.ParseDecisionState | src/conductor/src/engine/accepted-widenings.ts:265-280 | Reading in separate passes (fields, ids, numbering, relationships) gives the verdict of the declarative reader |
| DecisionStore.AcceptedIsValid | src/conductor/src/engine/accepted-widenings.ts:471-472 | The closing re-check of an append accepts a rendered log if and only if the log is valid |
| DecisionStore.ClosingCheckExact | src/conductor/src/engine/accepted-widenings.ts:425-475 | On a valid log, once an entry has passed the replay rules and the compare-and-swap with a fresh bounded id, the closing re-check refuses it if and only if the log holds 512 decisions or the entry borrows an offer that is in the log but not its predecessor's |
| AcceptedWideningStore.AcceptedWideningDecisionStore.AtomicReplace | src/conductor/src/engine/accepted-widenings.ts:333-344 | The file becomes the new text or stays what it was, whichever of the three steps fails; no temporary file stays unless its removal fails too |
| AcceptedWideningStore.AcceptedWideningDecisionStore.LoadState | src/conductor/src/engine/accepted-widenings.ts:313-331 | Reads the file under the lease and tells absent, unreadable, malformed, unsupported, foreign and present apart |
| AcceptedWideningStore.AcceptedWideningDecisionStore.Append | src/conductor/src/engine/accepted-widenings.ts:411-481 | One append, with every failure of lease, read, id generation, write and rename, has the result and leaves the file that `AppendEffect` gives, which `DecisionAnswers.AppendCall` tells from the stored decisions; the lease is given back |
| AcceptedWideningStore.AcceptedWideningDecisionStore.MigrateLegacy | src/conductor/src/engine/accepted-widenings.ts:361-409 | The same for the migration of a version-one document; `DecisionAnswers.MigrationCall` tells its results |
| DecisionRuns.AppendWritesExactly | src/conductor/src/engine/accepted-widenings.ts:425-475 | The log grows if and only if the entry is news (it repeats nothing and opens a case or a criterion, or reverses the authority of the very head it names), the id is usable, there is room and no offer is borrowed; a revision of anything but the head never changes the log |
| DecisionRuns.WriteExtends | src/conductor/src/engine/accepted-widenings.ts:462-475 | A write keeps the old log and puts exactly one valid decision after it, whose revision is its place |
| DecisionRuns.RepeatedAppend | src/conductor/src/engine/accepted-widenings.ts:411-481 | Repeating a successful append at once, whatever id the generator would now give, returns, once the lease is granted and the file is read, the same decision and leaves the file as it is |
| DecisionRuns.RunInvariant | src/conductor/src/engine/accepted-widenings.ts:411-481 | Whatever inputs and failures a run of appends from an absent file has, the file is absent or a rendered valid log of the feature whose authorities alternate |
| DecisionRuns.AlternatesExtend | src/conductor/src/engine/accepted-widenings.ts:455-458 | Every append that writes keeps the alternation of authority |
| DecisionRuns.AuthorityAlternates | src/conductor/src/engine/accepted-widenings.ts:455-458 | Down each case of a log written by appends, authority strictly alternates: the newest decision and the distance to it fix the authority of every earlier one |
| DecisionAnswers.ScreenExactly | src/conductor/src/engine/accepted-widenings.ts:428-460 | The replay rules and the compare-and-swap hand back the decision at an index if and only if that one answers the entry: without `supersedes` the first it echoes, with it the newest of its case, of the same authority, named itself or by the revision and offer it shares; and they let an entry through if and only if it opens its case unechoed or reverses the newest decision it names |
| DecisionAnswers.AppendAnswers | src/conductor/src/engine/accepted-widenings.ts:425-475 | Every answer on a valid log, from the log alone: a stored decision exactly when one answers the entry, a write exactly when the entry is news, the id usable, the log not full and no offer borrowed, a failed id generator exactly for news without an id, and otherwise an invalid decision |
| DecisionAnswers.AppendCall | src/conductor/src/engine/accepted-widenings.ts:411-481 | A whole call: a decision comes back if and only if the log found holds the answer and the file stays, or the entry is recordable, the replacement succeeds and the file then holds the log found with the new decision behind it; each failure of lease, read and replacement has its own answer and leaves the file alone |
| DecisionAnswers.LoadExactly | src/conductor/src/engine/accepted-widenings.ts:313-331 | Each outcome of a read with exactly the files that lead to it; a log is read as present if and only if the file holds its printed form, it is valid and of the feature |
| DecisionAnswers.InputExactly | src/conductor/src/engine/accepted-widenings.ts:484-517 | An append input is accepted as an entry if and only if it is a well-formed entry's printed form without further keys and the entry is that one with its own texts trimmed, but not those of source, revision and legacy row |
| DecisionAnswers.MigrationAnswers | src/conductor/src/engine/accepted-widenings.ts:373-403 | A migration writes if and only if the file is a version-one document of legacy rows whose id is the one the caller read; it is done already if and only if the file stores the proposed log; each failure has exactly its files |
| DecisionAnswers.MigrationCall | src/conductor/src/engine/accepted-widenings.ts:361-409 | A whole migration call: migrated if and only if the proposal is a valid log of the feature, the lease is granted, the file is still the legacy document read and the replacement succeeds |
| DecisionWriters.StepKeepsInv | src/conductor/src/engine/accepted-widenings.ts:307-481 | Every small step of any store (lease, read, stage, rename, release, any of them failing or the store dying) keeps the invariant, and the file only evolves |
| DecisionWriters.NoLostUpdate | src/conductor/src/engine/accepted-widenings.ts:307-481 | For any number of stores, of the same or of different features, interleaving appends and migrations with any failures, every stored file evolves from every earlier one: a valid log keeps its feature and all its decisions for ever |
| DecisionWriters.AcknowledgedForever | src/conductor/src/engine/accepted-widenings.ts:411-481 | A decision that any append acknowledged is, in every later file of the run, still stored at the index its revision says |
| DecisionWriters.LeaseExclusive | src/conductor/src/engine/accepted-widenings.ts:307-311 | At most one store at a time is between taking and giving up the lease |
| ShellText.FindingsIn | src/conductor/scripts/interpreter-source-check.ts:10-19 | The expansions found are those whose dollar is preceded by an even run of backslashes |
| SourceText.ExpandsExactly | src/conductor/scripts/interpreter-source-check.ts:10-19 | Something is found if and only if a back tick, or a dollar before a name, a digit, a brace, a parenthesis or a special parameter, stands there behind an even run of backslashes, and a dollar not behind an odd run of dollars, since dollars pair up from the left |
| ShellText.ContinuesShellLine | src/conductor/scripts/interpreter-source-check.ts:201-214 | The scan that takes a backslash with the character after it answers yes if and only if the terminal run of backslashes is odd and the final quote is not single: the pair view and the counting view agree |
| ShellWords.AdvanceKeepsReading | src/conductor/scripts/interpreter-source-check.ts:36-66 | Every round of the word reader keeps: quote stack as high as the substitution depth, a region open exactly when the depth is positive, finished regions ordered, disjoint and verbatim |
| ShellWords.ReadWord | src/conductor/scripts/interpreter-source-check.ts:26-73 | A word is the verbatim slice of its span, ends at a space, an operator or the end of the text, and its regions are ordered, disjoint, verbatim slices at least two characters shorter; only the last can be open and then reaches the end |
| ShellWords.WordAt | src/conductor/scripts/interpreter-source-check.ts:26-73 | The loop with its eight local variables reads exactly that word and labels it with the line of its first character |
| WrittenWords.WrittenWord | src/conductor/scripts/interpreter-source-check.ts:26-73 | A word written from pieces, bare, in single quotes, in double quotes with or without escapes, or behind backslashes, is read to its end as the text of its pieces, closed and without substitutions, and holds an expansion if and only if what stands bare or unescaped in double quotes does |
| WrittenWords.QuotingProtects | src/conductor/scripts/interpreter-source-check.ts:26-73 | What stands in single quotes, escaped in double quotes or behind backslashes never expands |
| ShellCommands.HeredocDelimiter | src/conductor/scripts/interpreter-source-check.ts:149-181 | A heredoc expands if and only if its delimiter word holds no quote and no backslash, and then the delimiter is the word itself |
| ShellTokens.DelimiterRoundTrip | src/conductor/scripts/interpreter-source-check.ts:149-181 | A delimiter written from bare, quoted and escaped pieces means the text of the pieces, and its body expands if and only if every piece is bare |
| ShellCommands.TokenAt | src/conductor/scripts/interpreter-source-check.ts:98-141 | Every token but the end consumes something, and words and delimiters are read where they stand |
| ShellTokens.TokenExactly | src/conductor/scripts/interpreter-source-check.ts:98-141 | Which token starts at a character that is no space, from the characters there: a comment, a heredoc delimiter, a separator, or a word exactly when it is none of these, no redirection and no arithmetic command |
| ShellTokens.RedirectionExactly | src/conductor/scripts/interpreter-source-check.ts:77-90 | A redirection starts exactly where, digits apart, `<`, `>` or `&>` stands, and ends behind the word after its longest operator |
| ShellCommands.RelabelShift | src/conductor/scripts/interpreter-source-check.ts:135-135 | Mapping positions through one more closure is the same as moving the scan and then mapping it |
| ShellCommands.ScanLabels | src/conductor/scripts/interpreter-source-check.ts:92-147 | At every nesting depth, each word's raw text stands at its label in the whole command, and each heredoc's delimiter at its |
| ShellPlaces.LevelApart | src/conductor/scripts/interpreter-source-check.ts:92-147 | Along one level of substitution the words, arguments and heredoc delimiters alike, have disjoint spans and strictly increasing labels |
| ShellPlaces.ScanIsLevels | src/conductor/scripts/interpreter-source-check.ts:132-139 | The scan of a command is its own words in the order of the text, then the words inside their substitutions; its heredocs are those of both in the order of the text |
| WrittenCommands.WrittenScan | src/conductor/scripts/interpreter-source-check.ts:92-147 | A line written from any commands of plain words is scanned into those commands, word by word, with nothing lost, joined or added |
| ShellPlaces.NestedInside | src/conductor/scripts/interpreter-source-check.ts:133-139 | What is read inside the substitutions of a word lies inside one of that word's regions, behind its first character |
| ShellPlaces.ScanSpread | src/conductor/scripts/interpreter-source-check.ts:92-147 | At whatever depths, no two words, no two heredocs and no word and heredoc of one scan have the same label |
| ShellPlaces.WordsDiffer | src/conductor/scripts/interpreter-source-check.ts:92-147 | Two words of a scan, by command and place, are two different places of the text, also when they read the same |
| ShellCommands.CommandsOnLine | src/conductor/scripts/interpreter-source-check.ts:92-147 | The recursive scan with its composed line closures terminates and gives the position-labelled scan with every position mapped to its line |
| ShellPlaces.HeredocsDiffer | src/conductor/scripts/interpreter-source-check.ts:92-147 | Two heredocs of a scan are two different places of the text |
| ShellPlaces.WordAndHeredocDiffer | src/conductor/scripts/interpreter-source-check.ts:92-147 | So are a word and a heredoc |
| ShellLines.CountExact | src/conductor/scripts/interpreter-source-check.ts:216-230 | Counting the recorded starts up to an offset names the one piece that holds the character there, also when continuation lines are empty |
| ShellLines.JoinedContinuation | src/conductor/scripts/interpreter-source-check.ts:216-230 | The joined text is the physical lines without their closing backslashes, joined as far as they continue and no further, and the recorded starts are where the pieces begin |
| ShellLines.LineExact | src/conductor/scripts/interpreter-source-check.ts:226-229 | A line number is reported for an offset if and only if that physical line holds the character |
| ShellLines.ScanReported | src/conductor/scripts/interpreter-source-check.ts:92-147 | Every word and heredoc of a joined command, however deep inside substitutions, is reported at the physical line that holds the character at its own label; the labels are all different, so equal words on different lines are told apart |
| ShellLines.ScanLogicalLine | src/conductor/scripts/interpreter-source-check.ts:245-246 | The same of what the checker computes for one logical line |
| InterpreterCheck.QuoteCloseIndex | src/conductor/scripts/interpreter-source-check.ts:193-199 | The loop finds the first closing quote that no backslash escapes, or none |
| SourceText.CloseExactly | src/conductor/scripts/interpreter-source-check.ts:193-199 | That quote is the first one behind an even run of backslashes, and there is none exactly when every quote stands behind an odd run |
| InterpreterCheck.JudgeSpan | src/conductor/scripts/interpreter-source-check.ts:257-283 | A source that spans lines is followed to its closing quote, judged on all its lines, and the rest of that line is checked as a text of its own that shares the heredoc queue |
| InterpreterCheck.CheckInterpreterSource | src/conductor/scripts/interpreter-source-check.ts:232-312 | The mutually dependent loops terminate on every text and compute the recursive definition, whose findings `FindingSources.FoundExactly` tells one by one |
| InterpreterCheck.BodyIsData | src/conductor/scripts/interpreter-source-check.ts:238-244 | Until its delimiter comes, every line belongs to the first pending heredoc: none is read as a command, and the findings are exactly the expansions of an expanding interpreter body |
| SourceWords.InterpreterExactly | src/conductor/scripts/interpreter-source-check.ts:11-11 | An interpreter is one of three names, alone, at the root, or at the end of an absolute path without spaces and empty segments |
| SourceWords.PythonExactly | src/conductor/scripts/interpreter-source-check.ts:143-146 | A heredoc is an interpreter's exactly when behind assignments and prefixes its command names Python, alone or as the last segment of a path |
| SourceWords.SourceExactly | src/conductor/scripts/interpreter-source-check.ts:248-256 | Which source a command has, word by word: behind assignments and prefixes an interpreter, behind it the first source flag, and then the rest of `--eval=` or the next word; missing exactly when that flag is the last word, none exactly when there is no such flag |
| FindingSources.CommandExactly | src/conductor/scripts/interpreter-source-check.ts:247-301 | What one command of a round reports: a closed source its own line if and only if it holds an expansion, and nothing else; one closed on a later line the same if and only if an expansion stands before the quote, then what the rest of that line reports; any other one an unterminated source, or, carried on by backslashes, an expanding one if and only if it or those lines hold an expansion |
| FindingSources.CommandAdded | src/conductor/scripts/interpreter-source-check.ts:247-301 | Finding by finding: a finding is there behind a command if and only if it was before or the command adds it, a suffix behind a closing quote included, which is told without recursion |
| FindingSources.RoundExactly | src/conductor/scripts/interpreter-source-check.ts:236-305 | Round by round: a pending heredoc takes one line, which ends it exactly when it is its delimiter, tabs apart where it says so; otherwise a logical line is taken, its commands judged in turn and its heredocs queued behind theirs |
| FindingSources.FoundExactly | src/conductor/scripts/interpreter-source-check.ts:232-312 | A finding of any kind is reported for a text if and only if a line of an expanding interpreter heredoc or a command of some round adds it, or an interpreter heredoc is still open at the end |
| FindingLines.ScanAtReported | src/conductor/scripts/interpreter-source-check.ts:245-246 | In the text being checked itself, words and heredocs carry the physical line of the character at their label |
| FindingLines.OneLineExactly | src/conductor/scripts/interpreter-source-check.ts:232-312 | Of a text of one line, the shape of every closing-quote suffix, a finding is at line two if and only if it ends in a backslash, two of its commands have an incomplete source and no heredoc body is being read; the heredocs it queues are known as well |
| FindingLines.SuffixHeredocsMisplaced | src/conductor/scripts/interpreter-source-check.ts:257-283 | Defect: when a source closes its quote on a later line, every heredoc of the rest of that line is queued with line 1, although its delimiter stands on that line, which is never the first |
| FindingLines.QueuedLines | src/conductor/scripts/interpreter-source-check.ts:232-312 | In every round of a check, each queued heredoc carries the line its delimiter stands on, or was opened behind a closing quote and carries line 1 |
| FindingLines.RoundJudged | src/conductor/scripts/interpreter-source-check.ts:247-302 | Within a round, the checker runs past the last line exactly when an incomplete source meets only closing backslashes to the end, and a finding lies past the end exactly when another incomplete source follows or the suffix of the last line overruns |
| FindingLines.OverrunExactly | src/conductor/scripts/interpreter-source-check.ts:232-312 | A check of a text has a finding past its end if and only if some round has an incomplete source behind one that ran out of the text, or one that closes its quote on the last line before a suffix that overruns; none lies further than one line past |
| FindingLines.OneLineTextExactly | src/conductor/scripts/interpreter-source-check.ts:232-312 | A check of a text of one line has a finding past its end if and only if the text ends in a backslash and two of its commands have an incomplete source |
| FindingLines.CheckWithin | src/conductor/scripts/interpreter-source-check.ts:232-312 | Every finding of a check, of every kind, names a line of the text, unless its last line ends in a backslash; then it may lie one line past the end |
| FindingLines.OverrunHappens | src/conductor/scripts/interpreter-source-check.ts:288-299 | Defect: two commands without a source on a last line that ends in a backslash are reported on the last line and one line past it |
| InterpreterExample.PlainToken | src/conductor/scripts/interpreter-source-check.ts:92-141 | A word without shell syntax is read as the argument it is spelled as |
| InterpreterExample.OverrunExample | src/conductor/scripts/interpreter-source-check.ts:232-312 | That defect on a concrete one-line text, from the text to its two findings |
| InterpreterExample.MisplacedExample | src/conductor/scripts/interpreter-source-check.ts:232-312 | The misplaced heredoc on a concrete text of two lines: it stands on line two, and that it is never closed is reported at line one |
| InterpreterExample.ExpansionExample | src/conductor/scripts/interpreter-source-check.ts:233-312 | The text `python3 -c "print($X)"` has exactly one finding, the expansion in its source at line one |
| CaseReconciliation.RecordAsBuiltReconciliation | src/conductor/src/engine/as-built-case-reconciliation.ts:138-176 | The loop over a case list and an id set does what the specification of one operation says, to the store, to the outbox and to the generated ids; `CaseStatus` tells what that is for each case |
| CaseReconciliation.RecordAsBuiltNeedsHuman | src/conductor/src/engine/as-built-case-reconciliation.ts:178-200 | The same for findings that a human must decide |
| CaseReplay.RunReplays | src/conductor/src/engine/as-built-case-reconciliation.ts:109-209 | Over any run of the three operations the as-built cases are the replay, on the cases the run began with, of the events the run added to the outbox; the rest of the store is untouched |
| CaseReplay.RunCaseByCase | src/conductor/src/engine/as-built-case-reconciliation.ts:109-209 | From a store without as-built cases and with fresh case ids, each case's sources are at all times exactly the outbox's events for that case, in order, and no two cases share an id |
| CaseReplay.RunKeeps | src/conductor/src/engine/as-built-case-reconciliation.ts:134-209 | Over any run, findings stay pairwise distinct across all cases, each recurrence count is one more than the case's recurrences, and no case or source is lost |
| CaseReplay.RecordedExactly | src/conductor/src/engine/as-built-case-reconciliation.ts:149-171 | A result is recorded, and as which event, exactly by the store and the results before it: its finding is new to both, and its case, if it is linked, is one of the store or one opened by an earlier result; an earlier result shadows a later one even when it was dropped itself |
| CaseReplay.IdsExactly | src/conductor/src/engine/as-built-case-reconciliation.ts:152-169 | When the turn comes to a result, the cases are those of the store and one for each id drawn for the unlinked, unshadowed results before it |
| CaseReplay.DroppedResultHides | src/conductor/src/engine/as-built-case-reconciliation.ts:149-158 | Defect: a result linked to a case that does not exist, then a new one for the same finding: nothing is recorded and no case is opened |
| CaseReplay.ResolveKeeps | src/conductor/src/engine/as-built-case-reconciliation.ts:202-209 | Resolving loses no case and no source, keeps the counts, and leaves no case open |
| CaseStatus.OperationFollows | src/conductor/src/engine/as-built-case-reconciliation.ts:134-209 | What one operation does to every case of any store: a case there before is untouched, or open with further sources that say word for word what results of the operation say; a new one says what a result says, with its repair tasks, and waits for a human exactly when a human result is all there is; resolving turns the open cases into resolved ones and changes nothing else |
| CaseStatus.StatusExactly | src/conductor/src/engine/as-built-case-reconciliation.ts:134-209 | Over any run from a store without as-built cases: a case waits for a human exactly while a human result opened it and nothing was linked since, is resolved exactly when otherwise its sources are those of the last resolving, and is open otherwise |
| CaseStatus.RecurrenceReopens | src/conductor/src/engine/as-built-case-reconciliation.ts:155-163 | A resolved case is open again after a recurrence that names it, with the recurrence as its last source |
| CaseStatus.Upgraded | src/conductor/src/engine/as-built-case-reconciliation.ts:74-85 | What the current version keeps of a store of each version |
| CaseStatus.EnvelopeKept | src/conductor/src/engine/as-built-case-reconciliation.ts:134-209 | No run touches the cases of other domains or loses an outbox entry |
| ManualTestGate.Gate.Evaluate | src/conductor/src/engine/artifacts.ts:3574-3771 | The predicate, which reads, writes and removes the marker step by step with every access free to fail, gives the verdict and leaves the marker of one evaluation; when it is done, `ManualTestVerdict.DoneExactly` tells from the texts themselves |
| ManualTestGate.FailIsRecorded | src/conductor/src/engine/artifacts.ts:3688-3708 | An evaluation outside a preserve probe that finds FAIL rows at a known head, and whose write succeeds, puts up the guard, whatever its reads did |
| ManualTestGate.GuardHolds | src/conductor/src/engine/artifacts.ts:1674-1693 | At the recorded head one evaluation gets past the guard if and only if its results are clean and the marker could not be read where it mattered, and takes it down if and only if it then stamps a marker it cannot read |
| ManualTestGate.NoWhitewash | src/conductor/src/engine/artifacts.ts:3574-3771 | Over any run after a recorded FAIL, while session and head stay the same, some evaluation is done if and only if one slips past an unreadable marker; no results file, run identity or code validity makes an evaluation done whose marker reads succeed |
| ManualTestGate.GuardReleasesExactly | src/conductor/src/engine/artifacts.ts:3574-3771 | With a recorded FAIL, an evaluation of the session, at any head and with any failing reads, is done if and only if its results are clean and the look-up that mattered did not find the FAIL at this head |
| ManualTestGate.UnreadableMarkerLosesFail | src/conductor/src/engine/artifacts.ts:3721-3769 | Defect: one clean evaluation that cannot read the marker is done at the unchanged head and overwrites the marker, so that the FAIL is lost for all later ones |
| ManualTestVerdict.RegionExactly | src/conductor/src/engine/artifacts.ts:1702-1707 | The verdict is read in the suffix of the text that starts at an attempt heading, spelled out character by character, behind which no other stands, and in the whole text exactly when it has none |
| ManualTestVerdict.SplitExactly | src/conductor/src/engine/artifacts.ts:1751-1756 | The lines of a text and the cells of a line hold no separator and give the text when joined with it |
| ManualTestVerdict.FailRowsExactly | src/conductor/src/engine/artifacts.ts:1751-1760 | The FAIL rows are, in order, exactly the lines of that region with a cell that says FAIL |
| ManualTestVerdict.DoneExactly | src/conductor/src/engine/artifacts.ts:3574-3771 | For every marker and every course of an evaluation: done if and only if the code-validity short cut applies to a marker with nothing but a stamp, or the results are of this run or session, no line behind the last heading fails, and no FAIL recorded at this head stands against them; FAIL rows are reported exactly otherwise when a line there fails |
| ManualTestVerdict.FailIsNotDone | src/conductor/src/engine/artifacts.ts:3626-3708 | With a FAIL behind the last heading an evaluation is done if and only if the short cut applies |
| ManualTestVerdict.FailIsWritten | src/conductor/src/engine/artifacts.ts:3688-3708 | The marker of a FAIL holds the time, the head and the first twenty rows, and nothing else |
| ManualTestVerdict.MarkerExactly | src/conductor/src/engine/artifacts.ts:3657-3770 | Every other evaluation leaves the marker alone, unless it is done through its results at a known head and outside a probe: then a marker seen to name a head is removed, and the head is stamped on what a read finds |
| RedSelfHeal.Worktree.NormalizeNestedMarker | src/conductor/src/engine/acceptance-red-runner.ts:216-233 | A stray nested marker becomes the root marker exactly when there is none |
| RedSelfHeal.Worktree.SelfHeal | src/conductor/src/engine/acceptance-red-runner.ts:329-429 | The orchestration over the three files does what the specification of one self-heal says, whose results `RedEvidence.HealExactly` tells field by field |
| RedSelfHeal.RootWrittenExactly | src/conductor/src/engine/acceptance-red-runner.ts:406-429 | A self-heal writes the root marker if and only if a usable contract's command reports complete evidence, whether or not it establishes RED; otherwise the marker is the one there before, moved there, or left by the command |
| RedEvidence.HealedIsSound | src/conductor/src/engine/acceptance-red-runner.ts:329-429 | A healed worktree shows at the root a run of the contract's command on its committed targets in which nothing was skipped or errored, something ran, and something failed or the exception recorded before excuses that nothing did |
| RedEvidence.EvidenceExactly | src/conductor/src/engine/artifacts.ts:1880-2007 | Evidence of generated specs is accepted if and only if its five counters are numbers, none errored or was skipped, one ran, one failed or a recognized exception stands there, any exception is recognized, there are no dispositions, and command, targets, failing tests, time and rationale are there; it falls short exactly when the counters are there and errors, skips, an empty run or no failure without any exception speak against it |
| RedEvidence.ContractExactly | src/conductor/src/engine/acceptance-red-runner.ts:60-133 | A contract is usable, as itself, if and only if its file says exactly that, every target is a committed spec and its directory lies in the worktree |
| RedEvidence.MarkerExactly | src/conductor/src/engine/acceptance-red-runner.ts:385-404 | Field by field: the marker's command, targets and time are the engine's, its exception the recorded one, everything else what the command reported |
| RedEvidence.HealExactly | src/conductor/src/engine/acceptance-red-runner.ts:378-429 | Every result under a usable contract, and the root it leaves, from the fields of that marker: healed exactly when they establish RED, refused with the marker written exactly when they fall short, and without detail exactly when only the failing tests are missing |
| RedEvidence.NothingRun | src/conductor/src/engine/acceptance-red-runner.ts:329-378 | Without a contract, or without a usable one, nothing is run and nothing but a stray marker moves |
| RedSelfHeal.ExceptionKept | src/conductor/src/engine/acceptance-red-runner.ts:135-163 | One self-heal keeps the recorded exception, present or absent, if and only if it runs no command, writes the marker itself, or finds the same exception in the file its command left; what the command reports never matters |
| RedSelfHeal.ExceptionNeverChanges | src/conductor/src/engine/acceptance-red-runner.ts:329-429 | Over any number of self-heals from a readable root marker the exception never changes if and only if every attempt spares it in this sense; so it never does when no command touches the marker |
| MigrationFences.SplitConcat | bin/lib/migration_fences.py:53-53 | Splitting a text into lines loses nothing |
| MigrationFences.ScanMigrationFences | bin/lib/migration_fences.py:37-100 | The one pass, with its section flag, open fence and candidate, finds exactly the records that the definition by each line's place in the text gives |
| MigrationFences.RunnableMigrationFences | bin/lib/migration_fences.py:103-110 | The runnable fences are the closed records inside a migration section, in order |
| MigrationFences.RecordSlice | bin/lib/migration_fences.py:57-65 | The source slice of a record is its opener line, its script and its closer line; without a closer it ends with the text |
| MigrationFences.RecordsApart | bin/lib/migration_fences.py:37-100 | A record before another one is closed and ends before the other starts |
| MigrationFences.RecordsOrdered | bin/lib/migration_fences.py:37-100 | The records are those of the opening lines, in the order of the text and disjoint, and only the last can be unclosed |
| MigrationFences.SectionOutside | bin/lib/migration_fences.py:73-80 | Outside fences the section flag is what the last deciding heading says |
| MigrationFences.Inside | bin/lib/migration_fences.py:54-71 | Inside a fence no line starts a record or decides the section |
| MigrationFenceLines.MigrationExactly | bin/lib/migration_fences.py:32-32 | A migration heading is two or three hashes, spaces, the word and spaces, and nothing else is |
| MigrationFenceLines.CandidateExactly | bin/lib/migration_fences.py:82-90 | A candidate opens with exactly three back ticks and, spaces around them apart, the two words |
| MigrationFenceLines.FencedExactly | bin/lib/migration_fences.py:53-88 | A fence is open in front of a line if and only if a line outside every fence opened it, with at least three marks, and no line between, with at least as many and nothing but spaces behind, closes it |
| MigrationFenceLines.UnderExactly | bin/lib/migration_fences.py:73-80 | A line is in a migration section if and only if the last heading outside fences before it is a migration heading |
| MigrationFenceLines.RecordsExactly | bin/lib/migration_fences.py:37-100 | The records are, one for one and in order, those of the candidates outside every fence, each with its offsets, its script up to the first closing line, its section and whether it is closed |
| MigrationFenceLines.RunnableExactly | bin/lib/migration_fences.py:103-110 | The runnable ones are exactly the closed ones under a migration heading, in order |
| MigrationFenceLines.LinesExactly | bin/lib/migration_fences.py:53-53 | Lines end behind every line break and nowhere else, a carriage return with its line feed being one |
| FindingIds.EncodeInjective | src/conductor/src/engine/as-built-contract.ts:10-15 | Percent-encoding over UTF-8 (sections 2.1 and 2.2 of RFC 3986) never makes two texts one |
| FindingIds.FindingIdInjective | src/conductor/src/engine/as-built-contract.ts:280-291 | Attempt and ordinal can be read off a finding id: different findings of one or of different attempts never share an id |
| AsBuiltVerdict.ValidateKept | src/conductor/src/engine/as-built-contract.ts:319-363 | Validation accepts a valid verdict's own document as that verdict |
| AsBuiltVerdict.ValidatedIsValid | src/conductor/src/engine/as-built-contract.ts:319-363 | Whatever validation accepts meets the contract |
| AsBuiltVerdict.ValidateIdempotent | src/conductor/src/engine/as-built-contract.ts:307-363 | Validating the result of a validation gives it back |
| AsBuiltVerdict.NothingForeign | src/conductor/src/engine/as-built-contract.ts:307-316 | Removing the fields of other verdicts never touches a document the engine wrote |
| AsBuiltAcceptance.AcceptedExactly | src/conductor/src/engine/as-built-contract.ts:307-363 | A document is accepted as a verdict if and only if the verdict is valid, the fields of its kind say it, no field is there that no verdict knows, findings are empty outside a blocked verdict, and no approval reports an undelivered outcome; all other fields of other verdicts may say anything |
| AsBuiltAcceptance.ReachabilityExactly | src/conductor/src/engine/as-built-contract.ts:186-200 | An entry is read if and only if it is a primitive with a list of hops, blank ones among them being dropped |
| AsBuiltAcceptance.HopAlone | src/conductor/src/engine/as-built-contract.ts:186-200 | Each hop of a caller chain is kept in its place, unless it is blank |
| AsBuiltAcceptance.FindingExactly | src/conductor/src/engine/as-built-contract.ts:245-278 | A finding is accepted if and only if it is a valid finding's printed form |
| AsBuiltVerdict.StampsDistinct | src/conductor/src/engine/as-built-contract.ts:280-291 | Stamped findings have pairwise different ids, within an attempt and across attempts |
| AsBuiltVerdictStore.VerdictStore.Persist | src/conductor/src/engine/as-built-verdict-store.ts:154-173 | Persisting stores the stamped verdict with its envelope; a failing first write leaves the stored file alone, a failing report write fails the call but leaves the new verdict stored |
| AsBuiltVerdictStore.PersistedExactly | src/conductor/src/engine/as-built-verdict-store.ts:70-99 | A stored verdict validates, as itself, if and only if its ids are the ones its attempt and order give |
| AsBuiltVerdictStore.RoundTrip | src/conductor/src/engine/as-built-verdict-store.ts:154-200 | Reading what was persisted gives back the same stamped value |
| AsBuiltVerdictStore.ForeignIdsUnreadable | src/conductor/src/engine/as-built-verdict-store.ts:176-200 | A persisted file with any other finding id is unreadable |
| AsBuiltReading.StoredExactly | src/conductor/src/engine/as-built-verdict-store.ts:70-99 | Any stored document is accepted as a stamped verdict if and only if it is accepted as the provider verdict once, for a blocked one, exactly the ids of its attempt and order are taken off its findings |
| AsBuiltReading.ReadExactly | src/conductor/src/engine/as-built-verdict-store.ts:176-200 | A file is read as a persisted verdict if and only if it is an envelope of it, field by field, around a document that stores the verdict; it is absent exactly when there is no file, and a prior version exactly when an envelope holds a first-version verdict |
| DrainTeardown.ScaledDaemonTeardown.ExecutorSettled | src/conductor/src/daemon-cli.ts:472-476 | After a stop and before a force-release, a settled executor replaces the armed timer by one for the executors still live; otherwise nothing happens |
| DrainTeardown.ScaledDaemonTeardown.RequestStop | src/conductor/src/daemon-cli.ts:464-468 | The first stop arms one timer for the live executors, any later one does nothing |
| DrainTeardown.ScaledDaemonTeardown.OnForceRelease | src/conductor/src/daemon-cli.ts:453-456 | A timer that runs out marks the teardown as force-released |
| DrainTeardown.HappenKeepsInv | src/conductor/src/daemon-cli.ts:442-481 | Every event keeps the invariant that bounds the armed deadline by what the live executors may still take |
| DrainTeardown.TurnsExactly | src/conductor/src/daemon-cli.ts:442-481 | The first stop, and every executor that settles between a stop and a release, leaves one timer armed, one turn away for each executor still live and one when none is; a timer that runs out leaves none; nothing else touches the timers |
| DrainTeardown.DrainBound | src/conductor/src/daemon-cli.ts:442-481 | With N executors live at the stop and budget T each, in whatever order they settle, the drain or the force-release has happened within T*N*(N+1)/2, or that time is not over; at most one timer is ever armed and force-release runs at most once |
| DrainTeardown.BoundIsReached | src/conductor/src/daemon-cli.ts:442-481 | The bound is the best possible: for every N some run still has a live executor and no force-release at its very end |
| DrainTeardown.TotalIsQuadratic | src/conductor/src/daemon-cli.ts:442-481 | N turns of shrinking length add up to the quadratic bound |
| ObligationTable.LinesOutsideFences | src/conductor/src/engine/architecture-obligation-coverage.ts:45-59 | The loop with one open fence keeps exactly the lines of the definition |
| ObligationTable.KeptExactly | src/conductor/src/engine/architecture-obligation-coverage.ts:45-59 | A line is read if and only if it is no fence line and every fence opened before it was closed before it |
| ObligationTable.FencedIsInert | src/conductor/src/engine/architecture-obligation-coverage.ts:45-59 | Whatever stands inside a fence, other than a fence line, changes nothing that is read |
| ObligationTable.RowRoundTrip | src/conductor/src/engine/coherence-parse.ts:96-102 | A written table row reads back as its cells if and only if no cell holds a bar or has whitespace at its ends |
| ObligationTable.SectionLines | src/conductor/src/engine/architecture-obligation-coverage.ts:66-73 | The section is what stands between its heading and the next level-two heading |
| ObligationCells.MarkerExactly | src/conductor/src/engine/architecture-obligation-coverage.ts:48-50 | A fence line is at most three spaces and a run of at least three marks |
| ObligationCells.RowCells | src/conductor/src/engine/coherence-parse.ts:96-102 | The cells of any line, written or not: what stands between its bars, trimmed |
| ObligationCells.SectionExactly | src/conductor/src/engine/architecture-obligation-coverage.ts:67-73 | The section runs from the first titled heading to the next heading of level two |
| ObligationCells.SeparatorExactly | src/conductor/src/engine/coherence-parse.ts:105-107 | A separator cell is two dashes or more with at most a colon at each end |
| ObligationCells.DataExactly | src/conductor/src/engine/architecture-obligation-coverage.ts:84-93 | The data are the rows behind the first separator row, the header apart |
| ObligationCells.CitationsExactly | src/conductor/src/engine/architecture-obligation-coverage.ts:109-112 | The citations of a cell are, in order, what stands between its commas, trimmed and not empty, unless the cell stands for no task |
| ObligationCells.CitedId | src/conductor/src/engine/architecture-obligation-coverage.ts:114-114 | A proper citation names the trimmed text behind its prefix, any other one itself |
| ObligationCells.EvidenceExactly | src/conductor/src/engine/coherence-parse.ts:84-93 | The evidence of a cell is what stands between its quotes, or the whole cell |
| ObligationCells.NormalizeExactly | src/conductor/src/engine/architecture-obligation-coverage.ts:41-43 | Normalizing leaves the words of a text with one space between each two, whatever spaces stood around them |
| ObligationCoverage.ParseMappings | src/conductor/src/engine/architecture-obligation-coverage.ts:62-156 | The loop over header, separator and data rows gives the mappings and violations of the data rows |
| ObligationCoverage.ValidateCoverage | src/conductor/src/engine/architecture-obligation-coverage.ts:164-233 | The passes with their map of rows by decision give the violations of the definition, in order |
| ObligationCoverage.RowExactly | src/conductor/src/engine/architecture-obligation-coverage.ts:104-152 | A row of four cells causes no violation if and only if it covers a required decision: known disposition, evidence, and for tasks valid citations of tasks with Done-when checks that hold the evidence |
| ObligationCoverage.CoverageExactly | src/conductor/src/engine/architecture-obligation-coverage.ts:164-233 | The violation list is empty if and only if rows and required decisions match one to one and every row covers: no gap escapes and no complete table is refused |
| ObligationCells.CoversExactly | src/conductor/src/engine/architecture-obligation-coverage.ts:104-152 | A row covers exactly when, in terms of its cells, it spells a disposition, has evidence, and cites, for tasks, only tasks of the plan, properly, one of whose checks holds the evidence, and otherwise nothing |
| ObligationCells.ViolationsExactly | src/conductor/src/engine/architecture-obligation-coverage.ts:164-233 | Every violation with its decision and reason, and no other: each fault of a row by itself, each required decision with no row or with two, and each fault of a row against the plan |
| GitPaths.DecodeGitQuotedPath | src/conductor/src/engine/as-built-projection.ts:147-166 | The loop decodes what the item-by-item definition says, for every text |
| GitPaths.DecodeQuote | src/conductor/src/engine/as-built-projection.ts:147-166 | Decoding inverts git's C-style quoting for every sequence of octets |
| GitPaths.DecodeQuoteText | src/conductor/src/engine/as-built-projection.ts:147-166 | With `core.quotePath` off the decoded path is right if and only if no character takes two UTF-16 code units; the decoder replaces each half of such a character |
| GitPaths.QuotedHeader | src/conductor/src/engine/as-built-projection.ts:168-174 | From a header with both names quoted the new name comes back octet by octet |
| GitPaths.PlainHeader | src/conductor/src/engine/as-built-projection.ts:168-174 | From a header with both names bare the new name comes back if and only if it is not empty and no ` b/` inside it is followed by anything |
| GitPaths.MixedHeaderRefused | src/conductor/src/engine/as-built-projection.ts:168-174 | Defect: a header whose old name alone is quoted is never understood, and the projection fails |
| GitPaths.QuotedNewNeverRead | src/conductor/src/engine/as-built-projection.ts:168-174 | Defect: from a header whose new name alone is quoted the new name never comes back |
| GitPaths.NewNameExactly | src/conductor/src/engine/as-built-projection.ts:168-174 | Of the four forms of a header, the new name comes back if and only if both names are quoted, or both are bare and the new one is not empty and holds no ` b/` that something follows |
| DiffProjection.ChunksExactly | src/conductor/src/engine/as-built-projection.ts:176-187 | The chunks put together are the diff, none is empty, and the cuts are exactly the file headers |
| DiffProjection.SplitDiffByFile | src/conductor/src/engine/as-built-projection.ts:176-187 | Every chunk becomes a file with its path, or the whole diff is refused |
| DiffProjection.PreambleRefused | src/conductor/src/engine/as-built-projection.ts:176-187 | Anything in front of the first header makes the whole diff unreadable |
| DiffFiles.HeaderExactly | src/conductor/src/engine/as-built-projection.ts:168-171 | A chunk's header is the rest of its first line, exactly when that is not empty |
| DiffFiles.WrittenSplit | src/conductor/src/engine/as-built-projection.ts:176-187 | A diff of any files whose headers are of the forms that are read is split into exactly those files, each with its new name and its own text |
| DiffProjection.ProjectDiff | src/conductor/src/engine/as-built-projection.ts:189-213 | The loop with its running total takes and omits the chunks that the definition by turns takes and omits |
| DiffProjection.NothingLost | src/conductor/src/engine/as-built-projection.ts:189-213 | Every byte of the diff is either included or omitted, and the included ones never exceed the total limit |
| DiffProjection.OmittedForGood | src/conductor/src/engine/as-built-projection.ts:200-208 | An omitted chunk is over the per-file limit or would not fit even behind everything that was taken in the end |
| DiffProjection.HunksAreTaken | src/conductor/src/engine/as-built-projection.ts:209-210 | The projected lines hold the taken chunks character by character, line feeds apart |
| DiffFiles.TakenExactly | src/conductor/src/engine/as-built-projection.ts:189-213 | The chunks taken are the only choice in which each is taken exactly when it is within the limit of a file and, with those taken before it, within the total; the others are named in order, each with its path and hash |
| DiffFiles.HunkLines | src/conductor/src/engine/as-built-projection.ts:209-210 | The projected lines of a taken chunk are its lines that are not empty, in order |

## Left out

- DrainBound: covers runs in which `cancel()` does not happen; an executor that settles after it arms a timer again.
- RoundTrip: the policy and the recorded findings are carried through as documents.
- Evaluate: a marker that is a JSON array or a JSON text keeps nothing when it is stamped; the program spreads its elements into numbered fields.
- AcceptedExactly: says that a document is refused, not with which field and requirement.
- ValidateCoverage: the Done-when checks of the plan's tasks are an input; `parsePlanTaskDoneWhen` is not part of this model.
- DecodeQuote: paths are octets; turning them into text, where ill-formed UTF-8 is replaced, is not modelled.
- CommandsOnLine: the flag for nested scans and the fixed line number are never used by the checker with other values and are not parameters here.
- The wording of findings, failures and violation details, and the rendered as-built report.
- Rendering decision blocks for the operator and reading legacy blocks back (`accepted-widenings.ts`).
- The lease's internals, and path resolution, date parsing and disposition records of the RED validator, which are parameters.
- The build-review verdict validators in `artifacts.ts`, and the other completion predicates there.
- Claim-time repair accounting in `daemon-cli.ts` and the rest of the daemon's wiring.
- The other sections of the as-built projection: tasks, criteria, decision texts, changed files.
- Conformance of the scanners to the POSIX shell or to CommonMark; the models follow the code.
- The command-line part of `migration_fences.py`.
