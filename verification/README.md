# Verified models of devdiag's hand-written logic

devdiag diagnoses development environments. Most of what it does is running commands and reading files; the parts
modelled here are the ones that carry an algorithm or a protocol of their own: redaction of secrets, the glob
compiler, the readers of strace output and kernel events, the binary swap of the updater, the source strings through
which collectors and rules talk, the delivery of a concurrent scan to the terminal interface, and the algebra of
findings, version ranges and baselines.

Each method is proved against a specification function, and the lemmas beside it say what that function means. The
function is usually a recursion over lines, characters or actions that follows the original loop.

| file | models |
|---|---|
| `Text`, `Trimming`, `Numbers`, `Ordering`, `Grouping`, `Overrides` | string helpers of the Go library, decimal numbers, stable sorting, and the "one element per key" loops that several parts share |
| `BlockTree`, `BlockScalar`, `YamlLines`, `YamlBlocks` | the YAML block-scalar redaction rule: the nesting of extents on abstract lines, the whole rule on texts, and what it does to lines and blocks as they are written |
| `Interpolation`, `InterpolationScan`, `InterpolationMeaning`, `InterpolationLaws`, `InterpolationLimits` | the `${NAME:-operand}` redaction rule and its brace scan, the rule as one scan of the text, what it does to interpolations as they are written, when it is idempotent, and what an opening inside a subscript does |
| `Cookies`, `CookieLines`, `AssignmentTail`, `AssignmentValues` | the cookie header rule, and the closing delimiters a masked assignment gives back, each also on headers and values as they are written |
| `Glob`, `GlobPatterns` | `globRegexp`, byte by byte, against the meaning of a pattern segment by segment, which patterns keep that meaning, and which paths the usual patterns match |
| `TraceParser`, `TraceArgs`, `TraceLines`, `TracePrefixes`, `TraceReader`, `TracePids`, `TraceHalves` | strace lines, argument lists, whole lines read back with each form of prefix, the pairing of unfinished and resumed calls, why processes can be read apart, and calls split in two read back |
| `KernelTrace`, `KernelCapture`, `KernelOverlap` | the eBPF tracepoint handlers, what a run of them reports, what the reports show of user memory, and which calls may overlap |
| `SwapRace`, `SwapBreaks`, `Swap` | any number of updaters interleaving, failing and crashing; the breaking of stale locks; and one updater, fault by fault and step by step |
| `Sources`, `SourceWords` | printing and parsing evidence sources across packages, and which names come back as they were |
| `Delivery`, `Sessions` | collector results, the scanning goroutine, the bounded channel and the two done signals; and the model that takes the messages of several scans |
| `EvidenceMerge`, `Findings`, `Severities` | merging evidence, the aggregator, and the report by the names of the severities |
| `Versions`, `VersionRanges`, `VersionLaws`, `VersionMeaning`, `VersionTexts` | version parsing, comparison, expressions, caret and tilde ranges, and what expressions say as they are written |
| `Baselines`, `Snapshot`, `Relevance`, `Views`, `Listing` | baseline entries and import, creation from findings, suppression and filtering, what each view shows by severity and ID, and the order of files and evidence |

Reading notes:

- Classifiers that are regular expressions over names (which key names read as secret) are parameters
  (`secret: string -> bool`); the theorems hold for every such classifier. The patterns that drive the loops (block
  headers, mapping entries, PEM markers, interpolation openings, cookie headers, strace prefixes) are written out as
  scanners.
- The system clock, the hash function, the table of default layers, environment faults and scheduling are parameters
  or actions.
- Where the code does not meet a property on all inputs, the property is proved with its condition and the failing
  inputs beside it. Exact conditions: `Glob.GlobMeaning`, `SwapBreaks.LostIffTornOrBroken`, `SwapBreaks.LostIffTorn`,
  `SwapBreaks.TwoInsideIffStale`, `KernelOverlap.ReportsIffApart`, `Sessions.FollowsLatestIff`,
  `EvidenceMerge.MergeCommutes`, `Findings.OrderShows`, `Baselines.ClockShows`, `Baselines.ImportAgain`,
  `Sources.JobKeyRecovered`, `Sources.StepKeyRecovered`, `Sources.CIServiceRecovered` and `Relevance.IdMode`.
  Conditions with counterexamples on the other side: `InterpolationLaws.Idempotent` with
  `InterpolationLimits.SubscriptUncovers`, and `InterpolationLaws.NothingShown` with
  `InterpolationLimits.SubscriptShows`.

## Model

| member | source | states |
|---|---|---|
| BlockTree.Laminar | internal/redact/rules.go:796-840 | a header inside another header's extent has its whole extent inside it, same-column exceptions included |
| BlockTree.RedactSplits | internal/redact/rules.go:796-860 | the lines of a block are rewritten the same whatever follows the block, so deleting bodies does not disturb enclosing extents |
| BlockTree.Idempotent | internal/redact/rules.go:766-863 | on every list of sound lines the rule applied to its own result changes nothing |
| BlockTree.KeptAgain | internal/redact/rules.go:840-860 | a header that was kept gains neither a body nor key material when the lines below it are rewritten |
| BlockTree.Survivors | internal/redact/rules.go:796-860 | the result is every line outside masked bodies, in order, masked headers replaced: no line of a masked body survives, nothing else is lost |
| BlockTree.FixedExactly | internal/redact/rules.go:840-860 | the rule leaves the lines alone if and only if no header has a body to mask |
| BlockTree.NothingLeftToMask | internal/redact/rules.go:766-863 | no header of the result still has a body under a secret key or with key material in it |
| BlockScalar.ClassifyMask | internal/redact/rules.go:840-860 | a replaced header line, read back, is no header, has no key marker, keeps its indentation and still opens a mapping entry |
| BlockScalar.MaskHasNoMarker | internal/redact/rules.go:840-860 | no private-key marker can be spelled by a masked header line, whatever its key |
| BlockScalar.PemJoin | internal/redact/rules.go:840-852 | joined body lines hold a private-key marker if and only if one of the lines does |
| BlockScalar.HeaderColumn | internal/redact/rules.go:712-745 | a header's key column is never left of its own indentation, tabs counted as eight |
| BlockScalar.TextIdempotent | internal/redact/rules.go:766-863 | redacting a text twice is redacting it once, for every text and every secret classifier |
| BlockScalar.TextRedacted | internal/redact/rules.go:771-863 | the redacted text read again is the surviving lines of the input, and none of its headers is to be masked |
| BlockScalar.FindEnd | internal/redact/rules.go:800-836 | the forward walk finds the last line of the header's extent |
| BlockScalar.MustMask | internal/redact/rules.go:838-852 | the decision is the one of the line model: secret key, or a key marker in a body that is not empty |
| BlockScalar.RedactYAMLBlockScalars | internal/redact/rules.go:771-863 | the loop over header lines computes the redaction of the line model |
| YamlLines.EntryMeaning | internal/redact/rules.go:225-228 | the scanner finds a mapping entry if and only if the line is written as one: indentation, dashes, a quote or none, a key, a quote or none, blanks and a colon |
| YamlLines.HeaderMeaning | internal/redact/rules.go:203-213 | the same for block headers: an entry, `|` or `>` with digits and signs behind it, and at most a comment |
| YamlBlocks.PemMeaning | internal/redact/rules.go:214-218 | the scanner finds a private-key marker if and only if one is spelled in the text, in upper or lower case |
| YamlBlocks.BlockVanishes | internal/redact/rules.go:771-863 | a written block under a secret key, or with a private key in it: the header keeps its prefix and gets the marker, exactly the lines of the body vanish, and the rest is redacted on its own; body lines are those indented deeper than the key, tabs as eight, and as deep in the compact-sequence and mixed-tab cases |
| YamlBlocks.BlockStays | internal/redact/rules.go:771-863 | any other written block stays, and so does a header without a body; the lines behind the header are redacted on their own |
| YamlBlocks.OtherLineStays | internal/redact/rules.go:771-863 | a line not written as a header stays, and the lines behind it are redacted on their own |
| Interpolation.FindBalancedClose | internal/redact/rules.go:593-613 | the scan with depth and escapes finds the closing brace of the recursive reading, or -1 |
| Interpolation.RewriteOpenings | internal/redact/rules.go:564-587 | the loop over matches writes what the list of effective, non-overlapping openings demands |
| Interpolation.RedactInterpolationDefaults | internal/redact/rules.go:556-588 | the whole rule, fast paths included, equals its specification |
| InterpolationMeaning.OperandMasked | internal/redact/rules.go:545-613 | under a secret name the whole non-empty operand goes, for each of the eight operators, with or without a subscript, escapes and nested interpolations included |
| InterpolationMeaning.OperandMaskedBefore | internal/redact/rules.go:545-613 | the same with further interpolations behind it, which are redacted on their own |
| InterpolationMeaning.HarmlessKept | internal/redact/rules.go:545-588 | under a harmless name the text stays, whatever the operator |
| InterpolationMeaning.EmptyKept | internal/redact/rules.go:574-587 | an empty operand stays |
| InterpolationMeaning.UnclosedKept | internal/redact/rules.go:593-613 | an operand that no brace closes stays |
| InterpolationMeaning.OtherKept | internal/redact/rules.go:545-550 | an interpolation that goes on with anything but an operator, such as a slice or the closing brace, stays |
| InterpolationMeaning.OpenSubscriptKept | internal/redact/rules.go:545-550 | one whose subscript is never closed stays |
| InterpolationScan.RedactIsScan | internal/redact/rules.go:556-588 | where no opening, name and operator included, starts between the bracket of a subscript and the first closing bracket behind it, the loop over precomputed matches is a left-to-right scan of the text |
| InterpolationLaws.CloseThrough | internal/redact/rules.go:593-613 | a brace scan that closes an operand reaches that brace at its own depth whatever encloses it |
| InterpolationLaws.StaysUnbalanced | internal/redact/rules.go:556-613 | an unbalanced operand, with escapes, nesting and subscripts, stays unbalanced when operands inside it are masked |
| InterpolationLaws.Idempotent | internal/redact/rules.go:545-588 | masking twice is masking once on every text in which no opening starts inside a subscript; subscripts, and interpolations without operator in them, are covered |
| InterpolationLaws.NothingShown | internal/redact/rules.go:545-588 | in the result of such a text every non-empty balanced operand under a secret name is the marker |
| InterpolationLimits.SubscriptUncovers | internal/redact/rules.go:545-588 | for every two secret names, a family of texts with one opening inside the other's subscript on which a second pass masks more than the first |
| InterpolationLimits.SubscriptShows | internal/redact/rules.go:545-588 | for every harmless and every secret name, a family of such texts that the rule leaves alone although an operand under the secret name is shown |
| Cookies.ValueShape | internal/redact/rules.go:309-338 | masking keeps the number of segments, names, valueless attributes and trailing blanks; a value stays exactly in attribute position under a harmless name |
| Cookies.ValueIdempotent | internal/redact/rules.go:297-340 | masking a header value twice is masking it once, for every value |
| Cookies.TextIdempotent | internal/redact/rules.go:297-340 | the same for whole texts: masked header lines are recognised again with the same value |
| Cookies.HeaderLocal | internal/redact/rules.go:147-150 | the head of a header line is recognised again in front of any value that starts with a non-blank |
| Cookies.RedactCookieValue | internal/redact/rules.go:309-338 | the loop that rewrites segments in place gives the masked value |
| CookieLines.HeaderRedacted | internal/redact/rules.go:147-150 | a written `Cookie:` or `Set-Cookie:` line, in any case and with blanks around: the head stays, and each part of the value is redacted by its place and its name, with the marker in place of the value |
| CookieLines.EmptyHeaderStays | internal/redact/rules.go:302-307 | a header without a value stays |
| CookieLines.OtherStays | internal/redact/rules.go:147-150 | a line that does not start with such a head stays |
| CookieLines.TextByLines | internal/redact/rules.go:297-307 | the lines of a text are redacted one by one |
| AssignmentTail.ClosingQuote | internal/redact/rules.go:444-456 | the index loop finds the closing quote, escapes counting in double quotes only |
| AssignmentTail.SplitValueTail | internal/redact/rules.go:415-434 | the loop gives the tail and verdict of the specification |
| AssignmentTail.SplitMeaning | internal/redact/rules.go:415-434 | the tail is the longest run of closers behind the quoted part, and a value without content is closers only |
| AssignmentTail.MaskedFixpoint | internal/redact/rules.go:473-482 | a masked assignment read again is masked to the same text |
| AssignmentValues.PlainMasked | internal/redact/rules.go:415-482 | a value without a closed quote in front is masked up to the run of closing delimiters at its end |
| AssignmentValues.QuotedMasked | internal/redact/rules.go:415-482 | a quoted value is masked with its quotes and what follows them, up to the closing delimiters at the end; a backslash inside double quotes takes the next character along |
| AssignmentValues.NothingMasked | internal/redact/rules.go:458-482 | a value of closing delimiters only stays if the text in front opens with a bracket or quote, and is masked if not |
| Glob.GlobRegexp | internal/pathfilter/pathfilter.go:168-198 | the loop with its skips over the UTF-8 bytes of a pattern, each byte turned into a character of its own, emits the expression list of the recursive compiler |
| Glob.SegmentMeaning | internal/pathfilter/pathfilter.go:172-194 | the expressions of one segment, given by its bytes read as characters, accept exactly the slash-free texts the segment's wildcards match |
| Glob.AcceptedMatches | internal/pathfilter/pathfilter.go:158-198 | every path the compiled pattern accepts is matched segment by segment by the pattern's bytes read as characters |
| Glob.MatchedAccepted | internal/pathfilter/pathfilter.go:158-198 | every path that the pattern's bytes read as characters match segment by segment is accepted by the compiled pattern |
| Glob.ByteMeaning | internal/pathfilter/pathfilter.go:158-198 | both directions, for every path and every pattern given by its bytes read as characters |
| Glob.GlobMeaning | internal/pathfilter/pathfilter.go:158-198 | for patterns whose segments are `**` or free of it, compiled acceptance and segment matching are the same for all paths if and only if the pattern is ASCII |
| Glob.MatchGlobMeaning | internal/pathfilter/pathfilter.go:158-166 | the same for `matchGlob`, with trimming, the empty pattern and a leading `./` |
| Glob.ShortestRejected | internal/pathfilter/pathfilter.go:168-198 | a pattern beyond ASCII rejects the shortest path it matches segment by segment |
| Glob.AccentRejected | internal/pathfilter/pathfilter.go:168-198 | the pattern of one accented letter rejects that letter and accepts its two bytes read as two characters |
| GlobPatterns.SpaceIgnored | internal/pathfilter/pathfilter.go:158-166 | white space around a pattern makes no difference |
| GlobPatterns.EmptyMatchesNothing | internal/pathfilter/pathfilter.go:158-162 | a pattern of white space matches nothing |
| GlobPatterns.DotSlashIgnored | internal/pathfilter/pathfilter.go:158-166 | one `./` in front of a pattern makes no difference |
| GlobPatterns.DotSlashOnce | internal/pathfilter/pathfilter.go:158-166 | a second one is part of the name |
| GlobPatterns.NameMatches | internal/pathfilter/pathfilter.go:158-198 | a name matches itself and nothing else |
| GlobPatterns.BelowMatches | internal/pathfilter/pathfilter.go:168-198 | `dir/**` matches the paths below the directory, at any depth, that have no line break behind it |
| GlobPatterns.AnywhereMatches | internal/pathfilter/pathfilter.go:168-198 | `**/name` matches the name alone and below directories without line breaks |
| GlobPatterns.AnywhereBelowMatches | internal/pathfilter/pathfilter.go:168-198 | `**/dir/**` matches the paths without line breaks that have the directory as a proper front segment anywhere |
| GlobPatterns.StarMatches | internal/pathfilter/pathfilter.go:168-198 | `a*b` matches front, back and anything without a slash between them |
| GlobPatterns.QuestionMatches | internal/pathfilter/pathfilter.go:168-198 | `a?b` matches front, back and one character that is no slash between them |
| TraceParser.FindCloseParen | internal/trace/parser.go:59-95 | the parenthesis loop finds the position the recursive scanner finds |
| TraceParser.SplitArgs | internal/trace/parser.go:200-244 | the argument loop gives the list of the recursive scanner |
| TraceArgs.ArgsRoundTrip | internal/trace/parser.go:200-244 | printing arguments with commas and parentheses and parsing them gives the same list |
| TraceArgs.CloseParenPrinted | internal/trace/parser.go:59-95 | the parenthesis-only scan stops at exactly the last parenthesis of a printed list, whatever follows |
| TraceArgs.CallRoundTrip | internal/trace/parser.go:40-130 | the part of a line behind process id and time, printed as name, arguments and what follows them, is read back with that name, those arguments and what that tail says |
| TraceArgs.LineRoundTrip | internal/trace/parser.go:23-130 | a whole line printed with process id, time, name, arguments and a tail is read back with all of them |
| TraceLines.FailedLine | internal/trace/parser.go:23-130 | a line printed with `= -1`, an error name and its text is read with result `-1`, that error, and the duration in angle brackets if there is one |
| TraceLines.ResultLine | internal/trace/parser.go:23-130 | a line printed with any other result is read with it, without an error, and with the duration if there is one |
| TracePrefixes.AnyPrefix | internal/trace/parser.go:23-162 | a line is read with the process it names, in brackets or by its number alone, or zero, with the time it gives, if any, and its call |
| TracePrefixes.NoEvent | internal/trace/parser.go:30-33 | lines that tell of exits and signals are no events |
| TraceReader.TraceResult.ReadTraceFile | internal/trace/runner.go:217-284 | the loop with its pending map, cap and skip count leaves the result of the reading function in the object |
| TraceReader.ReadsApart | internal/trace/runner.go:238-283 | below the cap, one process's events from the whole file are those of its lines read alone, for any interleaving |
| TraceReader.SkipsAddUp | internal/trace/runner.go:238-283 | skip counts add up over the processes |
| TraceReader.StoredAccounted | internal/trace/runner.go:238-283 | every stored unfinished call is merged, overwritten by the same key, or still pending |
| TraceReader.PartialIffSkipped | internal/trace/runner.go:238-283 | a result is partial if and only if a call was skipped |
| TraceReader.BelowCap | internal/trace/runner.go:238-250 | below the cap the file is read to its end and skips count what is still pending |
| TracePids.MergedPid | internal/trace/parser.go:164-198 | joining an unfinished line with any completion gives a line of the same process |
| TracePids.StracePidsKept | internal/trace/parser.go:132-198 | keys and events of the strace parser carry the process of their lines, for all lines |
| TracePids.StraceReadsApart | internal/trace/runner.go:217-284 | reading apart and adding up skips, for the strace parser itself |
| TraceHalves.HalvesInFile | internal/trace/runner.go:238-283 | when the second half of a call is read, whatever lines of other processes stand between the halves, the event of the whole call is added and nothing is left waiting under its key |
| TraceHalves.FailedHalves | internal/trace/parser.go:164-198 | a failed call printed as an unfinished and a resumed line gives the event it would give whole |
| TraceHalves.ResultHalves | internal/trace/parser.go:164-198 | the same for any other result |
| KernelTrace.Collector.StorePathPending | internal/trace/ebpf_trace.bpf.c:173-190 | an entry of a tracked process is stored with its captured path, others are ignored |
| KernelTrace.Collector.StoreSockaddrPending | internal/trace/ebpf_trace.bpf.c:192-207 | the same for socket addresses, with family, port and address |
| KernelTrace.Collector.EmitPending | internal/trace/ebpf_trace.bpf.c:209-241 | an exit removes its entry and reports it when it failed and there is room |
| KernelTrace.Collector.SchedProcessFork | internal/trace/ebpf_trace.bpf.c:328-352 | a fork of a tracked process tracks the child and is reported |
| KernelTrace.ReportsExactly | internal/trace/ebpf_trace.bpf.c:149-241 | on orderly runs the events are, in order of completion, the failing calls of descendants of the root with the arguments of their own entries, and their forks |
| KernelTrace.DescendantsAreForkTree | internal/trace/ebpf_trace.bpf.c:328-352 | where process ids are not reused those descendants are the processes a chain of forks leads to from the root |
| KernelTrace.PendingTracked | internal/trace/ebpf_trace.bpf.c:149-241 | on every run pending keys belong to tracked processes |
| KernelCapture.PortRead | internal/trace/ebpf_trace.bpf.c:149-166 | the port is the value of its two bytes in network order |
| KernelCapture.Captured | internal/trace/ebpf_trace.bpf.c:153-190 | the arguments of a call are what user memory shows: nothing if it cannot be read, the first 95 characters of a path, the family of an address, and port and address for the Internet family |
| KernelCapture.FailedCalls | internal/trace/ebpf_trace.bpf.c:149-241 | on orderly runs a call is among the events if and only if it ended with an error in a process reached from the root by then, with what that thread passed at its own entry |
| KernelCapture.Forks | internal/trace/ebpf_trace.bpf.c:328-352 | the same for forks |
| KernelOverlap.ReportsIffApart | internal/trace/ebpf_trace.bpf.c:173-241 | a schedule without overflow and reuse of process ids is reported correctly, whatever user memory holds and the calls return, if and only if no descendant of the root ends a call that overlaps with another thread's of the kind |
| KernelOverlap.SharedEntry | internal/trace/ebpf_trace.bpf.c:173-241 | how it goes wrong: of two overlapping calls the first to fail is reported with the other's arguments, the second not at all |
| SwapRace.AtMostOneInside | internal/updater/swap.go:39-48 | in every interleaving with failures, failing removals and crashes, while no lock is found stale, at most one updater is between lock and unlock |
| SwapRace.OnlyHolderWrites | internal/updater/swap.go:39-90 | while no lock is found stale the files change only by steps of the lock's creator, so backup, stage and rename are never interleaved |
| SwapRace.OutcomesTell | internal/updater/swap.go:50-90 | while no lock is found stale the outcome tells at unlock what target and backup hold, with other updaters around |
| SwapBreaks.OneLivingInside | internal/updater/swap.go:39-111 | as long as no lock of an updater that runs inside is broken, at most one running updater is between lock and unlock |
| SwapBreaks.RecoverableAfterBreaks | internal/updater/swap.go:50-145 | the target or its backup stays a complete binary as long as no failing rollback leaves part of its copy behind, and no lock is broken of an updater that runs inside or crashed in a rollback |
| SwapBreaks.AlwaysRecoverable | internal/updater/swap.go:50-145 | while no lock is found stale and no failing rollback leaves part of its copy behind, the target or its backup is a complete binary in every reachable state |
| SwapBreaks.LivingOutcome | internal/updater/swap.go:50-111 | as long as no lock of an updater that runs inside is broken, an updater that still runs leaves at unlock what its outcome says |
| SwapBreaks.RollbackBrokenLosesBoth | internal/updater/swap.go:67-111 | from every start with two running updaters, breaking the lock of one that crashed in its rollback can leave target and backup empty |
| SwapBreaks.TornRollbackLosesBoth | internal/updater/swap.go:67-145 | from every start with two running updaters and a binary that is not empty, a rollback that fails, and whose partial copy is not removed, can leave target and backup empty without any stale lock |
| SwapBreaks.LostIffTorn | internal/updater/swap.go:50-145 | for complete binaries that are not empty: while no lock is found stale, a run can end without a complete binary if and only if a failing rollback may leave part of its copy behind |
| SwapBreaks.LostIffTornOrBroken | internal/updater/swap.go:50-145 | from every start with two running updaters and complete binaries that are not empty, a run can end without a complete binary if and only if it may break the lock of an updater that crashed in its rollback, or a failing rollback may leave part of its copy behind |
| SwapBreaks.TwoInsideIffStale | internal/updater/swap.go:93-111 | from every start with two running updaters, a run puts two running updaters inside at once if and only if a lock may be found stale |
| SwapBreaks.LateBreakAdmitsTwo | internal/updater/swap.go:93-111 | from every start with three running updaters: even if no lock found stale belongs to an updater that runs inside, the second of two that find a crashed one's removes the first one's new lock, and both run inside |
| Swap.InstallDir.CopyFileSync | internal/updater/swap.go:124-145 | whether a copy fails, what it leaves for each fault, failing removals included, and every state it passes through |
| Swap.InstallDir.AcquireLock | internal/updater/swap.go:93-111 | when exactly the two-attempt loop gets the lock, and what it leaves of a stale one, removed or not |
| Swap.InstallDir.SwapBinary | internal/updater/swap.go:24-90 | the exact condition of every outcome in terms of the faults and of the files before; success means new target and old backup, an error without rollback failure the old target, and at every crash point one of them is complete |
| Swap.InstallDir.Rollback | internal/updater/swap.go:67-81 | when exactly it reports failure; it keeps the backup throughout and gives back the target unless it does |
| Swap.SoloKeepsPromise | internal/updater/swap.go:24-90 | one updater in the step-by-step protocol ends with, and keeps at every step, what `SwapBinary` promises |
| Swap.SoloUpdates | internal/updater/swap.go:24-90 | one updater in the step-by-step protocol ends with the binary replaced if and only if every step that decides went well |
| Sources.SanitizeSource | internal/collectors/ci/ci.go:850-864 | the loop and the escape give the escaped sanitised name |
| Sources.DecodeEscape | internal/rules/m8engine.go:588-590 | decoding undoes escaping on every word |
| Sources.EscapeHidesSep | internal/collectors/ci/ci.go:862-864 | an escaped word never holds the separator |
| Sources.WorkflowKeyRecovered | internal/rules/m8engine.go:420-437 | a workflow key is always recovered |
| Sources.JobKeyRecovered | internal/rules/m8engine.go:420-437 | a job key is recovered if and only if it does not start with exactly one underscore |
| Sources.StepKeyRecovered | internal/rules/m8engine.go:420-437 | the same for step keys |
| Sources.ComposeServiceRecovered | internal/rules/m8engine.go:753-763 | a compose service and its field are always recovered |
| Sources.CIServiceRecovered | internal/rules/m8engine.go:708-726 | a CI service is recovered if and only if it has a name and neither escaped segment ends in an underscore |
| Sources.SecretByKey | internal/redact/rules.go:1061-1071 | a printed environment source is secret exactly when its key, less a lone leading underscore, is |
| SourceWords.SanitizedMeaning | internal/collectors/ci/ci.go:850-860 | letters, digits and underscores stay one by one, any other character becomes an underscore |
| SourceWords.PairEscaped | internal/collectors/ci/ci.go:862-864 | two underscores in a row are written as `%5F%5F`, from the left |
| SourceWords.KeyComesBack | internal/rules/m8engine.go:420-437 | a key is read back as it was if and only if it is a word and, below the workflow, does not start with exactly one underscore |
| SourceWords.ComposeComesBack | internal/rules/m8engine.go:753-763 | a compose service name is read back as it was if and only if it is a word |
| SourceWords.CIServiceComesBack | internal/rules/m8engine.go:708-726 | a CI service whose name is a word is read back as it was if and only if the name is not empty and neither it nor the sanitised job ends in an odd number of underscores |
| Delivery.ResultShape | internal/collectors/runner.go:80-180 | for every way a collector ends: status, name, notes, partiality and time limit of its result; without an error the status is OK unless set, a timeout notes the error of the context, any other error is noted as a failure |
| Delivery.SlotsWrittenOnce | internal/collectors/runner.go:51-78 | in every interleaving a slot is written at most once with its own collector's result, and exactly once when the scan returns |
| Delivery.NeverOutOfOrder | internal/tui/update.go:44-111 | at every moment the interface holds a prefix of what was emitted |
| Delivery.AllDelivered | internal/tui/update.go:66-162 | when the interface learns that the scan is done it holds exactly the emitted events in order, each collector's start before its result |
| Delivery.NeverStuck | internal/tui/update.go:44-111 | until the interface is through, some step makes progress: the bounded channel does not deadlock |
| Delivery.EveryScanEnds | internal/tui/update.go:44-111 | in every interleaving the steps that change anything are bounded by the numbers of notes and collectors, and when none is left the interface is through |
| Sessions.Model.Update | internal/tui/update.go:128-162 | one message: starts are taken, events and the end of a scan only from the session shown, and a next event is asked for accordingly |
| Sessions.ShowsItsSession | internal/tui/update.go:89-162 | with messages of other sessions mixed in, the model shows from a session's start on exactly the events of that scan, and in the end its emitted events in order and its results |
| Sessions.FollowsLatestIff | internal/tui/update.go:135-139 | the scan asked for last stays the one shown if and only if no start of another scan arrives after its own |
| EvidenceMerge.MergeEvidence | internal/findings/aggregator.go:84-102 | the loop with its seen set and sort gives the merged evidence |
| EvidenceMerge.MergedMeaning | internal/findings/aggregator.go:84-102 | merged evidence is in strict order and holds, for every key, what the left list has first, or else the right |
| EvidenceMerge.EvidenceUnion | internal/findings/aggregator.go:84-102 | for sources without NUL merged evidence is the set union in strict order by source and value |
| EvidenceMerge.MergeCommutes | internal/findings/aggregator.go:84-102 | the order of the arguments does not show if and only if every key both lists hold is first held by the same piece of evidence in each |
| EvidenceMerge.MergeAssociates | internal/findings/aggregator.go:84-102 | merging is associative, whatever the evidence |
| EvidenceMerge.PlainMergeCommutes | internal/findings/aggregator.go:84-102 | for sources without NUL the order of the arguments never shows |
| EvidenceMerge.NulMakesOrderMatter | internal/findings/aggregator.go:84-102 | such lists exist: with a NUL in a source two different pieces share a key |
| Listing.EvidenceListed | internal/findings/aggregator.go:92-102 | merged evidence is listed as in a dictionary, by source and then by value, each piece once |
| Findings.Add | internal/findings/aggregator.go:20-40 | the loop with its index of seen keys and in-place merges gives the report |
| Findings.ReportMeaning | internal/findings/aggregator.go:20-40 | a report is rank-sorted, has one entry per key and covers every finding, each entry being the merge of its group |
| Findings.KeyTellsApart | internal/findings/aggregator.go:67-73 | without NUL in ID and title two keys are equal if and only if ID, title and symptom are |
| Findings.Represented | internal/findings/aggregator.go:20-82 | every finding is stood for by exactly one entry, which ranks no lower |
| Findings.Originates | internal/findings/aggregator.go:42-82 | every entry is one of the findings, with defaults filled in and evidence merged |
| Findings.OriginatesAt | internal/findings/aggregator.go:42-82 | the same with its place: the first of the best ranked findings of its key |
| Findings.EvidenceIsFirst | internal/findings/aggregator.go:75-102 | an entry shows under every evidence key the piece its group shows first, and is in strict order, one piece per key, when the key was repeated |
| Findings.EvidenceIsUnion | internal/findings/aggregator.go:75-102 | for sources without NUL an entry shows exactly the evidence of its group, in strict order when the key was repeated |
| Findings.OrderIrrelevant | internal/findings/aggregator.go:20-111 | reordering the findings keeps keys and ranks, and the evidence of every entry whose group agrees on shared evidence keys |
| Findings.OrderShows | internal/findings/aggregator.go:20-111 | no order of the findings changes an entry's evidence if and only if its group agrees on the evidence keys its findings share |
| Findings.Idempotent | internal/findings/aggregator.go:20-40 | aggregating a report again changes nothing |
| Findings.TiesKeepOrder | internal/findings/aggregator.go:20-40 | entries of one rank and confidence stand in the order in which their keys first came up among the findings |
| Severities.GravestFirst | internal/findings/aggregator.go:20-111 | no entry of a report stands behind a less grave one, in the order critical, high, medium, low, info, anything else; among equals the more certain stands first |
| Severities.MostImportantStands | internal/findings/aggregator.go:42-111 | an entry is the first of the most important findings with its ID, title and symptom, gravity before certainty, apart from evidence and the defaults for what that finding leaves out |
| Versions.ParseVersionParts | internal/rules/m1engine.go:654-678 | the loop stops at wildcards, rejects non-numbers and gives the parsed parts |
| Versions.NormalizeVersion | internal/rules/m1engine.go:741-751 | the loop over prefixes gives the normalised text |
| Versions.CompareVersionParts | internal/rules/m1engine.go:680-702 | the loop gives the zero-padded lexicographic comparison |
| Versions.CompareVersionPartsPrefix | internal/rules/m1engine.go:704-718 | the loop gives the comparison of the parts the target writes |
| Versions.CompareMeaning | internal/rules/m1engine.go:680-718 | the result is the sign of the first differing part |
| Versions.TotalPreorder | internal/rules/m1engine.go:680-702 | comparison is a total preorder whose ties agree in every padded part |
| Versions.Monotone | internal/rules/m1engine.go:704-718 | both comparisons with a target are monotone in the version |
| Versions.PrefixAgainstOrder | internal/rules/m1engine.go:611-652 | at-least and below mean the order; equal, at-most and above ignore what the target does not write |
| VersionRanges.VersionExpressionSatisfied | internal/rules/m1engine.go:561-598 | caret, tilde and the loop over tokens give the verdict of the specification, errors included |
| VersionRanges.AcceptsInterval | internal/rules/m1engine.go:561-652 | every expression accepts an interval: a version between two accepted ones is accepted |
| VersionLaws.CaretMeaning | internal/rules/m1engine.go:720-732 | between base and caret bound means at least the base, same leading part, and a leading part that can be raised without overflow |
| VersionLaws.TildeMeaning | internal/rules/m1engine.go:734-739 | the same for tilde: same major and written minor part |
| VersionLaws.CaretRange | internal/rules/m1engine.go:572-578 | the verdict on a caret expression over versions without negative parts |
| VersionLaws.TildeRange | internal/rules/m1engine.go:579-585 | the verdict on a tilde expression over versions without negative parts |
| VersionLaws.ParsedNatural | internal/rules/m1engine.go:654-678 | a text without a minus sign has no negative parts |
| VersionLaws.PrintParse | internal/rules/m1engine.go:654-678 | a dotted list of numbers parses to those numbers |
| VersionTexts.MarkIgnored | internal/rules/m1engine.go:741-751 | each of the eleven prefixes in front of a printed version is dropped |
| VersionTexts.SpaceIgnored | internal/rules/m1engine.go:741-751 | white space around a version makes no difference |
| VersionTexts.WildcardEnds | internal/rules/m1engine.go:654-678 | a wildcard behind the numbers ends the version |
| VersionMeaning.TermMeaning | internal/rules/m1engine.go:611-652 | one operator in front of a printed version accepts what its sign says of the parts written; `=` and a bare version are not evaluated alone |
| VersionMeaning.RowMeaning | internal/rules/m1engine.go:586-652 | two or more such terms, separated by blanks or commas, accept what satisfies them all |
| VersionTexts.WildcardWritten | internal/rules/m1engine.go:561-652 | a printed version with a small `x` or an asterisk behind it accepts the versions with its numbers; a capital `X` is not evaluated |
| VersionTexts.CaretWritten | internal/rules/m1engine.go:572-578 | a printed caret range accepts what is not older and agrees in the first part, or in the second below version 1, unless that part cannot be raised |
| VersionTexts.TildeWritten | internal/rules/m1engine.go:579-585 | a printed tilde range accepts what is not older and agrees in the first two parts written, unless the last of them cannot be raised |
| Baselines.Baseline.Add | internal/baseline/baseline.go:140-176 | the entry is refused with its reason and nothing changes, or replaces the first entry with its key, or is appended |
| Baselines.Baseline.Remove | internal/baseline/baseline.go:180-198 | the first entry with the normalised key goes, and the result says whether one went |
| Baselines.Baseline.Prune | internal/baseline/baseline.go:121-136 | exactly the active entries stay, and the count is what went |
| Baselines.Baseline.ImportAll | internal/cli/baseline.go:741-752 | the import loop overrides entry by entry, stops at the first refusal, and added plus updated is the source size |
| Baselines.Validate | internal/baseline/baseline.go:101-118 | loading refuses another schema version and the first entry without ID or creation time, or with a malformed fingerprint, and nothing else |
| Baselines.ActiveEntries | internal/baseline/baseline.go:263-275 | the same active entries as pruning leaves |
| Baselines.ActiveMembers | internal/baseline/baseline.go:263-275 | active entries are exactly those that never expire or do so now or later |
| Baselines.PruneAgain | internal/baseline/baseline.go:121-136 | pruning now and later is pruning later |
| Baselines.AddRemove | internal/baseline/baseline.go:140-198 | removing an entry just added gives the table back |
| Baselines.RemoveMeaning | internal/baseline/baseline.go:180-198 | with unique keys the removed entry is gone and no other |
| Baselines.ImportMeaning | internal/cli/baseline.go:741-752 | importing keeps keys unique and is map override: the last source entry for a key wins, other keys keep theirs |
| Baselines.ImportAgain | internal/cli/baseline.go:701-755 | importing a source that loads again, into the table the file gives back, changes nothing if and only if the file lists the source's last entry first under every key; it does when keys were unique, or the sort is stable |
| Baselines.StoredUnique | internal/baseline/baseline.go:202-215 | with unique keys any sort by ID and fingerprint writes the same file |
| Baselines.ClockShows | internal/baseline/baseline.go:159-161 | for entries that never came from a file: adding them at two different times gives the same table if and only if the last entry of every key has a creation time |
| Listing.EntriesListed | internal/baseline/baseline.go:202-215 | a baseline file lists its entries as in a dictionary, by ID and then by fingerprint |
| Listing.EntryCleaned | internal/baseline/baseline.go:140-161 | adding stores the ID in capitals, drops white space around ID, reason and author, dates an undated entry, and changes nothing else |
| Listing.SameId | internal/baseline/baseline.go:77-86 | IDs count as the same in capital and small letters, and with white space around them |
| Overrides.Override | internal/cli/baseline.go:741-752 | lookup after an import, for any key function and any table |
| Overrides.ImportTwice | internal/cli/baseline.go:741-752 | importing a list twice is importing it once, even into a table with repeated keys |
| Overrides.ImportFixed | internal/cli/baseline.go:741-752 | an import leaves a table as it is if and only if the table lists the last element for every key first under that key |
| Snapshot.CreateFromFindings | internal/baseline/baseline.go:281-328 | the loop with its seen map gives the sorted first entries |
| Snapshot.CreatedMeaning | internal/baseline/baseline.go:281-328 | one entry for every ID, or ID and fingerprint, of a selected finding, and no other, each with the options' reason, author and dates |
| Snapshot.FingerprintMeaning | internal/baseline/baseline.go:77-86 | fingerprints agree if and only if normalised ID and symptom do, given that these two texts do not collide |
| Views.SelectedMeaning | internal/baseline/baseline.go:292-310 | a baseline takes up the findings whose ID is not blank and that are at least as grave as the minimum |
| Relevance.Policy.ApplyBaseline | internal/relevance/relevance.go:87-108 | the loop joins the active entries to the two maps without overriding reasons |
| Relevance.Applied | internal/relevance/relevance.go:97-107 | given reasons stay, and exactly the entries' IDs and fingerprints join |
| Relevance.FirstReason | internal/relevance/relevance.go:97-107 | a newly suppressed ID gets the reason of the first entry for it |
| Relevance.FirstFingerprintReason | internal/relevance/relevance.go:97-107 | the same for fingerprints |
| Relevance.FilterReport | internal/relevance/relevance.go:122-138 | visible findings in order, and visible plus hidden is the number of findings |
| Relevance.VisibleMeaning | internal/relevance/relevance.go:122-169 | visible findings are those not hidden, as often as they came, and filtering again keeps them all |
| Relevance.VisibleConcat | internal/relevance/relevance.go:128-134 | filtering keeps order: it works piece by piece |
| Relevance.IdMode | internal/baseline/baseline.go:281-328 | a baselined finding is suppressed by ID if and only if its ID has no surrounding space, unless it was before |
| Relevance.IdModeHides | internal/relevance/relevance.go:87-169 | creating by ID, applying and filtering hides exactly what was hidden and the findings whose ID is a selected one's, trimmed |
| Relevance.FingerprintMode | internal/relevance/relevance.go:87-149 | fingerprint mode suppresses exactly the findings that agree in normalised ID and symptom with a selected one |
| Relevance.FingerprintModeHides | internal/relevance/relevance.go:87-169 | the same for what is hidden in the end |
| Views.HiddenMeaning | internal/relevance/relevance.go:140-205 | a finding is hidden if and only if hidden ones are not asked for and it is suppressed or the view does not show it: the complete views show everything, an area view the IDs of its area, the others what is critical, high or medium, no noise, and as grave as the minimum |

## Left out

- InterpolationLaws.Idempotent: states one direction only. A text in which an opening starts inside a subscript may still be stable, because whether a second pass differs depends on where brackets, braces and secret names fall inside one another; the guard is one a caller can check, and `InterpolationLimits.SubscriptUncovers` shows a family that breaks it for every two secret names.
- InterpolationLaws.NothingShown: has the same guard, for the same reason; `InterpolationLimits.SubscriptShows` is the family.
- Baselines.ImportAgain: the file is sorted by a sort that need not be stable; with repeated keys in the target, which loading accepts, the order of equal keys then decides, as the contract says.
- Baselines.Validate: parsing, and the empty baseline that a missing or empty file loads as, are not part of this model.
- TracePids.StraceReadsApart: holds below the event cap; at the cap the order of lines decides what is read.
- TraceHalves.FailedHalves: leaves out calls whose arguments spell the marks the reader looks for (the unfinished mark twice, a line break, a tag), which `TraceHalves.Unambiguous` names; so does `TraceHalves.ResultHalves`, and `TraceLines.FailedLine` and `TraceLines.ResultLine` leave out lines that spell either mark.
- InterpolationMeaning.OperandMasked: is about texts with one interpolation, and `InterpolationMeaning.OperandMaskedBefore` about texts without openings inside subscripts, because of the families in `InterpolationLimits`.
- KernelTrace.ReportsExactly: assumes no overflow of maps and ring buffer, no reuse of process ids, and one call of a kind in flight per process; `KernelOverlap.ReportsIffApart` gives the exact condition in place of the last; the raw-tracepoint fallback and thread renumbering on exec are not part of this model.
- SwapRace.AtMostOneInside: assumes that no lock reaches the stale age while updaters run, and so do the other results of that module; `SwapBreaks` says what holds without that. Crashes are process crashes: what survives a power loss, directory syncs beyond their error result, permissions and file modes are not modelled.
- Delivery.AllDelivered: is about one session; liveness of cancelled or replaced sessions, timers, goroutine leaks and panics of collectors are not modelled.
- Sessions.Model.Update: is about scan mode; other keys than the rerun key, the error of a scan, and the redaction and filtering of the report it shows are left to other parts or left out.
- VersionLaws.CaretRange: is about versions without negative parts; those, which the number parser accepts, make the ranges ragged.
- Snapshot.FingerprintMeaning: hash collisions are excluded for the texts compared, not assumed away in general.
- Findings.OrderIrrelevant: confidences are real numbers, so NaN is not modelled.
- Upper and lower case, and case-insensitive patterns, fold ASCII letters only; Go also folds the Kelvin sign and the long s in patterns and all of Unicode in `strings.ToUpper`.
- Strings are sequences of characters, but for the bytes of glob patterns; invalid UTF-8 and byte offsets elsewhere are not modelled.
- Quick exits that only test for a word before running a pattern (such as "cookie" or "private key") are left out where the pattern itself requires that word.
- The other redaction rules (URLs, JWTs, headers, assignments as patterns, paths) are single regular expressions; the pipeline as a whole, where rules feed one another, is not modelled.
- Which names read as secret, the default layers of a domain, severity tables beyond their ranks, and the registry of templates are data.
- The result part of a trace line is read as text: durations stay digits and error names are not resolved; the scanner's limit on line length shows only as the oversized note.
- Patterns with a `**` glued to other characters inside a segment compile, but have no documented meaning to compare with.
- Reading and writing YAML, JSON, tar and gzip, HTTP downloads, attestation, subprocesses, command-line flags and drawing are not part of this model.
