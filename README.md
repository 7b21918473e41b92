# rllm text core in Dafny

rllm ports commits from one git branch to another with the help of a
language model. When a cherry-pick leaves merge conflicts, the tool:

- finds the first conflict block in a file;
- shows the model a numbered window of the file around that block;
- reads back a fenced, numbered solution;
- checks that solution;
- splices it into the file.

When a build fails, it does the following:

- strips ANSI escapes from the compiler output;
- parses `path:line:col:message` diagnostics;
- collects a map of the lines around each diagnostic.

While it prepares a prompt, it can let the model ask for more context. In
that loop the model writes `ASK: grep-context-n …`, `ASK: cat-context …`,
`ASK: blame-line …` or `ASK: close`. The loop answers each ask within a
line budget and an ask budget, and returns the gathered answers.

This project models the text logic of those steps in Dafny and proves what
it promises. Git, the file system, the shell and the model's replies are
inputs to the model, as follows:

- a working directory is a function from relative paths to `Missing`,
  `Directory` or `Regular(content)`;
- `git grep`, `git blame` and `Dir.glob` are functions of their arguments;
- the model's replies are a function from the ask number to the reply text.

Modules:

- `Text`: Ruby's `split("\n")`, `join`, `to_s`, `%Nd` and the `\s` and
  `\d` classes, plus a "greatest index" search. It also models `to_i`:
  leading whitespace, an optional sign, an optional `0d`/`0D` prefix, then
  digits.
- `OrderedHash`: a Ruby `Hash` as an insertion-ordered sequence of pairs.
  Assigning to a key that is already present keeps its position and
  replaces its value. The module also defines `keys.min`/`keys.max`,
  `uniq` and `sort`.
- `NumberedLines`:
  - the `"%Wd %s"` exchange format;
  - the regex `^(\s{0,5}\d{1,6}) (.*)$`;
  - fence extraction from the model's reply;
  - the numbered-solution hash.
- `Workdir`: the working-directory model.
- `Utils`: `get_file_context`.
- `MergeIteration`: conflict-marker labelling, the first block's window,
  the numbered rendering, the previous-solution lookup, and the
  validation, splice and record of one resolution.
- `FixupIteration`: `apply_suggested_changes`, ANSI stripping, the
  diagnostic parser, the error-context map and the outcome of
  `fixup_iteration`.
- `AskAndGatherContext`:
  - the ask parser;
  - the quote-aware parameter splitter;
  - the three tools with every rejection note;
  - line accounting;
  - the loop, both as a function over replies and as the imperative
    method proved equal to it.

Where the code promises one thing and does another, the model follows the
code:

- `MergeIteration.PreviousSolution`: the block parameter `sha` shadows the
  outer `sha`. A stored block therefore matches when its own `:sha` equals
  the key it is stored under, not the commit being ported.
- `MergeIteration.LabelLines`: a stray `=======` line outside a block also
  turns labelling on.
- `Utils.GetFileContext`: `get_file_context` keys lines by
  `start + index`, not by `index`. Several windows can therefore shift and
  repeat lines (`Utils.ShiftedWindowsRepeatLine`). With one window the
  keys are still increasing, so the output is the window itself.
- `FixupIteration.StripAnsi`: in the ANSI regex, `ESC ]` is already taken
  by the first alternative (`[@-Z\\-_]` contains `]`). The operating-system
  command branch is therefore never used.
- `AskAndGatherContext.GrepOutput`: the `git grep` output budget compares
  the output's character count with the remaining line budget.
- `AskAndGatherContext.FileGlobRejected`: a glob is only expanded when it
  matches a directory. A path that matches only files is reported as not
  found.
- `AskAndGatherContext.RunTool`: `grep-context-n` with no parameters at
  all raises `NoMethodError`, because `params[1..-1]` is `nil`.
  `cat-context` with no parameters is dropped silently by its `rescue`.
- `AskAndGatherContext.RunTool`: `File.exist?`, `File.directory?`,
  `Dir.glob` and a backtick command raise `ArgumentError` on a string
  holding a NUL character. In `grep-context-n` nothing rescues that, so
  the whole call raises (`GrepNulPathRaises`, `GrepNulPatternRaises`).
  `cat-context` and `blame-line` do their lookups inside `begin … rescue`,
  so there the ask is dropped with no note (`CatNulPathDropped`,
  `BlameOutcomes`).
- `FixupIteration.Fixup`: once the error-context map holds a line, the
  per-line loop calls `ask_and_gather_context` with eight arguments. The
  definition takes seven, so `fixup_iteration` raises there.

## Model

| member | source | states |
|---|---|---|
| Text.Split | lib/merge_iteration.rb:46 | Ruby `split("\n")`: no resulting line contains a newline and the last one is never empty |
| Text.SplitJoin | lib/merge_iteration.rb:291 | splitting newline-free lines joined by newlines gives them back, less any trailing empty lines |
| Text.SplitTerminated | lib/merge_iteration.rb:111 | text built as `line + "\n"` per newline-free line splits back into those lines, less any trailing empty lines |
| Text.DecimalValueOfNatToString | lib/merge_iteration.rb:109 | `to_s` of a natural number is a digit string whose decimal value is the number |
| Text.NatToStringLength | lib/merge_iteration.rb:109 | a number below 10^k has at most k digits in `to_s` |
| Text.ToIOfPaddedDigits | lib/merge_iteration.rb:243 | `to_i` of a space-padded digit group is the value of its digits |
| Text.ToIAfterSpaces | lib/ask_and_gather_context.rb:259 | `to_i` reads its sign and digits after the leading whitespace |
| Text.ToIOfDecimalPrefix | lib/ask_and_gather_context.rb:292 | `to_i` skips a `0d` or `0D` prefix after an optional sign and reads the digits after it, negated for `-` |
| Text.SplitWithout | lib/ask_and_gather_context.rb:230 | no line of `split("\n")` holds a character the text does not hold |
| Text.LastWhereGreatest | lib/fixup_iteration.rb:67 | no index above the one the greedy search returns satisfies the predicate |
| OrderedHash.PutKeys | lib/merge_iteration.rb:243 | assigning to a present key keeps the key order; assigning to an absent key appends the pair |
| OrderedHash.PutGet | lib/merge_iteration.rb:243 | after an assignment the key maps to the new value and every other key is unchanged |
| OrderedHash.PutDistinct | lib/merge_iteration.rb:243 | assignment never creates a duplicate key |
| OrderedHash.FromPairsKeys | lib/merge_iteration.rb:241-245 | the keys of a hash filled from pairs are the first occurrences of the pair keys, in order |
| OrderedHash.FromPairsGet | lib/merge_iteration.rb:241-245 | each key of a hash filled from pairs maps to the last value given for it |
| OrderedHash.FromDistinctPairs | lib/merge_iteration.rb:241-245 | pairs with distinct keys fill a hash equal to those pairs |
| OrderedHash.MinOf | lib/merge_iteration.rb:246 | `keys.min`: nil exactly for no keys, else a key no greater than any key |
| OrderedHash.MaxOf | lib/merge_iteration.rb:247 | `keys.max`: nil exactly for no keys, else a key no smaller than any key |
| OrderedHash.SortByKeyPairs | lib/fixup_iteration.rb:103 | `sort` of a hash with distinct keys keeps exactly its pairs, with strictly increasing keys |
| OrderedHash.SortByKeySorted | lib/utils.rb:19 | `sort` leaves a hash whose keys are already in order unchanged |
| OrderedHash.FromPairsDistinct | lib/merge_iteration.rb:241-245 | a hash filled from pairs never holds a key twice |
| OrderedHash.Uniq | lib/fixup_iteration.rb:87 | `uniq` keeps every element, only elements of the input, and no element twice |
| NumberedLines.ParseNumberedLine | lib/merge_iteration.rb:242-243 | a match means the line is a number group of at most 5 spaces and 1 to 6 digits, a space and the rest; the key is the group's value minus one |
| NumberedLines.ParseNumberedLineFromShape | lib/merge_iteration.rb:242-243 | given the leading-space and digit counts, a match is a group of at most 5 spaces and 1 to 6 digits, a space and the rest, keyed by the group's value minus one |
| NumberedLines.ParseNumberedLineComplete | lib/merge_iteration.rb:242-243 | every number group followed by a space and any rest matches, giving (value − 1, rest) |
| NumberedLines.NumberedLineRoundTrip | lib/merge_iteration.rb:111 | a line rendered as `"%Wd %s"` with a number below 10^6 parses back to (number − 1, line) |
| NumberedLines.NumberedWindow | lib/merge_iteration.rb:107-113 | the window has one line per index in the range, each the rendered (index + 1, line) |
| NumberedLines.ExtractSolution | lib/merge_iteration.rb:226-235 | the reverse fence scan yields the fenced lines of the reply, each followed by a newline |
| NumberedLines.FencedBetween | lib/merge_iteration.rb:226-235 | lines between a fence pair are kept in order and the fence lines are dropped, when an even number of fences follows the pair |
| NumberedLines.SingleFencedBlock | lib/merge_iteration.rb:226-235 | a reply with one fenced block yields exactly that block's body |
| NumberedLines.FencedNone | lib/merge_iteration.rb:226-235 | a reply without fences yields no solution lines |
| NumberedLines.ParseSolution | lib/merge_iteration.rb:238-245 | the parse loop fills the hash from the matching lines in order |
| NumberedLines.SolutionHashShape | lib/merge_iteration.rb:241-245 | the hash's keys are the distinct parsed keys in first-seen order, and each maps to the last value parsed for it |
| NumberedLines.WindowRoundTrip | lib/merge_iteration.rb:241-245 | parsing a rendered window back gives index ↦ original line for the whole window |
| Utils.GetFileContext | lib/utils.rb:1-20 | the method's result equals `Utils.FileContext` of the same tree, path, line numbers and margin |
| Utils.StoreWindow | lib/utils.rb:11-15 | the inner loop stores `start + index ↦ line` for every index in the window |
| Utils.OneLineNumber | lib/utils.rb:1-19 | "" for a missing path, a directory or an empty file; otherwise, for one line number, the lines max(0, n−c) .. min(len−1, n+c) joined by newlines |
| Utils.OutputLinesFromFile | lib/utils.rb:8-19 | every output line is a line of the file |
| Utils.ContextHashLines | lib/utils.rb:8-16 | every stored value is a line of the file |
| Utils.ShiftedWindowsRepeatLine | lib/utils.rb:13 | with `start + index` keys, windows around lines 2 and 0 of a four-line file with c = 1 output a, b, b, c, d |
| MergeIteration.Markers | lib/merge_iteration.rb:55-63 | one marker classification per line, in file order |
| MergeIteration.LabelLines | lib/merge_iteration.rb:46-81 | the labelling loop yields one entry per line and the final `pending_merge_blocks` of the scan |
| MergeIteration.PendingCountsEndMarkers | lib/merge_iteration.rb:76-80 | `pending_merge_blocks` is the number of `>>>>>>>` lines seen so far |
| MergeIteration.FlagsOn | lib/merge_iteration.rb:55-80 | the two side flags are never both on, and one is on exactly when an opening marker came after the last end marker |
| MergeIteration.LabelledIff | lib/merge_iteration.rb:65-73 | a line gets a label exactly when it is an opening marker or a block is open at it |
| MergeIteration.MergeIdCountsEndMarkers | lib/merge_iteration.rb:65-73 | a label's `merge_id` is the number of end-marker lines before that line |
| MergeIteration.EndMarkersZero | lib/merge_iteration.rb:76-80 | the count is zero exactly when no line is an end marker |
| MergeIteration.FirstBlockKeysSpec | lib/merge_iteration.rb:88 | the first block's keys are exactly the indices of lines labelled with `merge_id` 0 |
| MergeIteration.WindowOf | lib/merge_iteration.rb:102-103 | no window exactly for no keys; otherwise 0 ≤ start ≤ end < len and the window covers every key |
| MergeIteration.FirstBlockOfConflict | lib/merge_iteration.rb:52-103 | for a first conflict at lines a..c, block 0 is exactly a..c and the window is max(0, a−8) .. min(len−1, c+8) |
| MergeIteration.NoMarkersNoBlock | lib/merge_iteration.rb:88-100 | a file without opening markers has no first block, so the step ends on `exit` |
| MergeIteration.RenderWindow | lib/merge_iteration.rb:107-113 | `conflicted_content` is the window's lines rendered with the digit count of `first_block_end`, each followed by a newline |
| MergeIteration.FindMissingLines | lib/merge_iteration.rb:255-261 | an error is flagged exactly when some integer between the smallest and largest key is not a key |
| MergeIteration.SpliceWindow | lib/merge_iteration.rb:267-287 | the new lines are the lines before the window, the solution values in hash order, and the lines after the window |
| MergeIteration.ResolveConflict | lib/merge_iteration.rb:44-308 | the method's outcome equals `MergeIteration.Resolve` of the same sha, path, file text, reply and write result |
| MergeIteration.ApplySolution | lib/merge_iteration.rb:237-308 | the method's outcome equals `MergeIteration.Apply` of the same window and solution |
| MergeIteration.ApplyResolved | lib/merge_iteration.rb:249-308 | a solution starting at the window start with no gaps is written as prefix ++ values ++ suffix; it lowers the pending count by one and records sha, path, window text, start, end and solution |
| MergeIteration.ResolvedShape | lib/merge_iteration.rb:246-298 | every accepted step had a non-empty, gap-free key range starting at the window start, covered the block's window and left one block fewer pending |
| MergeIteration.UnnumberedReplyRejected | lib/merge_iteration.rb:246-253 | a reply without a parsable numbered line is a start mismatch (the nil minimum) |
| MergeIteration.ResolveApplies | lib/merge_iteration.rb:226-237 | when a block exists, the step applies the fenced lines of the reply to its window |
| MergeIteration.EchoedReplySolution | lib/merge_iteration.rb:226-235 | a reply that echoes the rendered window in one fence extracts to that window |
| MergeIteration.ApplyEchoedWindow | lib/merge_iteration.rb:237-308 | applying the window's own numbered lines rewrites the file with its original lines and records the block |
| MergeIteration.EchoedWindowResolves | lib/merge_iteration.rb:44-308 | echoing the window back resolves the block with the file's text unchanged |
| MergeIteration.ApplyAccepts | lib/merge_iteration.rb:249-308 | a gap-free solution from the window start whose splice equals the file is accepted and writes the file's own text |
| MergeIteration.LastMatchSpec | lib/merge_iteration.rb:128-141 | the lookup finds a solution exactly when some stored block matches, and it is the last matching block's solution |
| MergeIteration.PreviousSolution | lib/merge_iteration.rb:128-141 | nil for no earlier results, else the last matching block's solution or "" |
| MergeIteration.ScanSteps | lib/merge_iteration.rb:131-140 | scanning a result's porting steps carries the last match forward across all their blocks |
| MergeIteration.ScanBlocks | lib/merge_iteration.rb:132-139 | scanning a step's blocks carries the last match forward across them |
| MergeIteration.RecordedBlockFound | lib/merge_iteration.rb:130-138 | a block stored under its own sha is found for its path and window |
| MergeIteration.ForeignBlockIgnored | lib/merge_iteration.rb:130-138 | a block stored under another key is never found, because the block parameter shadows `sha` |
| FixupIteration.ApplySuggestedChanges | lib/fixup_iteration.rb:1-57 | the method's outcome equals `FixupIteration.ApplyChanges` of the same tree, file, line, solution and write result |
| FixupIteration.RewriteFile | lib/fixup_iteration.rb:27-56 | a successful write stores lines[0, min(s, len)) ++ values in insertion order ++ lines after the maximum key, joined; a failed write leaves the file alone |
| FixupIteration.CopyBefore | lib/fixup_iteration.rb:30-33 | the first loop copies the lines before the smallest key |
| FixupIteration.CopySolution | lib/fixup_iteration.rb:36-38 | the second loop appends the solution values in insertion order |
| FixupIteration.CopyAfter | lib/fixup_iteration.rb:41-44 | the third loop appends the lines after the largest key |
| FixupIteration.EchoRestoresFile | lib/fixup_iteration.rb:1-51 | applying a window's own numbered lines at its start writes the file's lines unchanged |
| FixupIteration.GapAccepted | lib/fixup_iteration.rb:11-51 | a two-line solution with a gap is accepted and the gap's lines are dropped |
| FixupIteration.ContiguousKeepsLineCount | lib/fixup_iteration.rb:27-44 | a contiguous solution over s..e with e < len keeps the line count |
| FixupIteration.StripAnsiPlain | lib/fixup_iteration.rb:61-62 | text without ESC is unchanged |
| FixupIteration.StripAnsiCsi | lib/fixup_iteration.rb:61 | a control sequence ESC [ params intermediates final is removed whole |
| FixupIteration.StripAnsiOsc | lib/fixup_iteration.rb:61 | ESC ] is removed as a two-character escape, leaving what follows |
| FixupIteration.StripAnsiSinglePass | lib/fixup_iteration.rb:62 | one `gsub` pass: removing an escape does not rescan the text it exposes |
| FixupIteration.Classify | lib/fixup_iteration.rb:69-73 | "error" exactly when the message contains "error" in any case, else "warning" exactly when it contains "warning", else "unknown" |
| FixupIteration.ParseDiagnosticMatches | lib/fixup_iteration.rb:67 | a line parses exactly when some split matches `^(.+):(\d+):(\d+):(.+)$`, and the chosen split is the greatest (greedy file part) |
| FixupIteration.FormattedDiagnostic | lib/fixup_iteration.rb:67-80 | `file:line:col:msg` with a message lacking a `:digits:` tail parses to that file, line, column, class and message |
| FixupIteration.ErrorLines | lib/fixup_iteration.rb:62 | one ANSI-stripped line per build-output line |
| FixupIteration.ParseBuildOutput | lib/fixup_iteration.rb:66-82 | the loop collects the parsed diagnostics in order and their files in the same order |
| FixupIteration.DiagnosticsFromLines | lib/fixup_iteration.rb:66-82 | a diagnostic is collected exactly when some line parses to it |
| FixupIteration.NoDiagnostics | lib/fixup_iteration.rb:66-83 | no diagnostic is collected exactly when no line parses |
| FixupIteration.ErrCount | lib/fixup_iteration.rb:95-98 | a window is empty or lies inside the file |
| FixupIteration.CollectEntries | lib/fixup_iteration.rb:94-102 | the loop's per-file map equals `FixupIteration.FileEntries`, which stores each diagnostic's window |
| FixupIteration.FileEntriesSpec | lib/fixup_iteration.rb:94-102 | the map exists exactly when some window is non-empty; each key is an index within max(0, line−9) .. min(len−1, line+7) of some diagnostic and maps to that line |
| FixupIteration.SortedFileEntries | lib/fixup_iteration.rb:94-103 | after `sort` the keys increase strictly, each maps to its own file line and every covered index is present |
| FixupIteration.ErrorContext | lib/fixup_iteration.rb:86-104 | the method's outcome equals `FixupIteration.ContextOf` over the unique error files |
| FixupIteration.ContextRaisedIff | lib/fixup_iteration.rb:86-104 | building the map raises exactly when some listed file is a directory, or exists with no line inside any of its windows |
| FixupIteration.ContextEmptyIff | lib/fixup_iteration.rb:86-104 | a map that was built is empty exactly when every listed file is missing |
| FixupIteration.FixupIteration | lib/fixup_iteration.rb:59-183 | the method's outcome equals `FixupIteration.Fixup` of the same tree and build output |
| FixupIteration.FixupTrueIff | lib/fixup_iteration.rb:83 | the result is `true` exactly when no stripped line parses as a diagnostic |
| FixupIteration.FixupFalseIff | lib/fixup_iteration.rb:83-182 | the result is `false` exactly when there are diagnostics and every diagnostic's file is missing |
| FixupIteration.OnePresentRaises | lib/fixup_iteration.rb:86-129 | one diagnostic in an existing file leaves a non-empty map (or a raise), so the per-line loop is entered |
| AskAndGatherContext.FindAsk | lib/ask_and_gather_context.rb:137-142 | the loop stops at the first reply line that matches the ask regex |
| AskAndGatherContext.FirstAskAt | lib/ask_and_gather_context.rb:137-142 | the ask is the parse of the first matching line |
| AskAndGatherContext.FirstAskNone | lib/ask_and_gather_context.rb:137-148 | no ask exactly when no reply line matches |
| AskAndGatherContext.AskLineRoundTrip | lib/ask_and_gather_context.rb:138-150 | `ws + "ASK: " + tool + " " + params` parses to that tool and params |
| AskAndGatherContext.AskLineBare | lib/ask_and_gather_context.rb:138-150 | an ask line without parameters gives params "" |
| AskAndGatherContext.AskLineTail | lib/ask_and_gather_context.rb:138-150 | after the tool name, one optional whitespace character is dropped and the rest is the parameter string |
| AskAndGatherContext.ParseParams | lib/ask_and_gather_context.rb:151-158 | the split loop produces one parameter per token, unquoted |
| AskAndGatherContext.WordsSplit | lib/ask_and_gather_context.rb:152-158 | quote-free words joined by single spaces split back into those words |
| AskAndGatherContext.QuotedPatternSplit | lib/ask_and_gather_context.rb:152-158 | a quoted pattern followed by paths splits into the pattern without quotes, then the paths |
| AskAndGatherContext.ScanPaths | lib/ask_and_gather_context.rb:176-207 | every collected path exists and holds no NUL, and a scan that did not break off leaves no note |
| AskAndGatherContext.ResolvePaths | lib/ask_and_gather_context.rb:176-207 | the path loop's result equals `AskAndGatherContext.ScanPaths` of the same paths, including its raise on a NUL character |
| AskAndGatherContext.KeepExisting | lib/ask_and_gather_context.rb:192-200 | the glob loop keeps exactly the globbed paths that exist, in order |
| AskAndGatherContext.SlashStripped | lib/ask_and_gather_context.rb:181-183 | a leading "/" is dropped before the existence check; a path holding NUL raises there |
| AskAndGatherContext.StripSlashNul | lib/ask_and_gather_context.rb:181-182 | dropping a leading "/" neither adds nor removes a NUL character |
| AskAndGatherContext.ScanNulFree | lib/ask_and_gather_context.rb:176-207 | when no path and no glob match holds NUL, the path loop finishes or breaks off without raising |
| AskAndGatherContext.ScanNulPath | lib/ask_and_gather_context.rb:181-182 | a non-blank path holding NUL raises in `File.exist?` |
| AskAndGatherContext.FileGlobRejected | lib/ask_and_gather_context.rb:184-206 | a missing path whose glob matches no directory stops the scan with a "not found" note, unless the path or a glob match holds NUL, which raises |
| AskAndGatherContext.GrepHitOfLine | lib/ask_and_gather_context.rb:230-237 | a `file:n:text` line with a colon-free text yields the hit (file, n) |
| AskAndGatherContext.GroupHits | lib/ask_and_gather_context.rb:229-238 | the grouping loop's hash equals `AskAndGatherContext.GrepHits` of the output lines |
| AskAndGatherContext.GrepHitsSpec | lib/ask_and_gather_context.rb:229-238 | each file maps to its hit line numbers in output order, and files without hits are absent |
| AskAndGatherContext.GrepHitsEmpty | lib/ask_and_gather_context.rb:229-239 | no hits exactly when no output line matches |
| AskAndGatherContext.GrepHitsNulFree | lib/ask_and_gather_context.rb:229-238 | grep output lines without NUL name only files without NUL |
| AskAndGatherContext.GrepOutputNulFree | lib/ask_and_gather_context.rb:229-251 | grep output without NUL never makes `get_file_context` raise on a file name |
| AskAndGatherContext.RenderHits | lib/ask_and_gather_context.rb:249-254 | the loop raises (no result) exactly when a file with hits holds NUL; otherwise the result is one fenced context section per file with hits |
| AskAndGatherContext.GrepOutput | lib/ask_and_gather_context.rb:222-254 | the method's outcome equals `AskAndGatherContext.GrepFiles`: the grep, its output budget, grouping and rendering |
| AskAndGatherContext.GrepContext | lib/ask_and_gather_context.rb:173-254 | the method's outcome equals `AskAndGatherContext.GrepDispatch`, the whole `grep-context-n` branch |
| AskAndGatherContext.GrepWholeRepository | lib/ask_and_gather_context.rb:213-223 | with no paths the grep runs over "."; a pattern holding NUL raises at the backtick |
| AskAndGatherContext.BlankPatternDropped | lib/ask_and_gather_context.rb:216-220 | a blank pattern drops the ask, leaving only the scan's note, unless the scan raised |
| AskAndGatherContext.GrepNulPathRaises | lib/ask_and_gather_context.rb:176-182 | a `grep-context-n` ask whose path holds NUL raises in `File.exist?`, which nothing rescues |
| AskAndGatherContext.GrepNulPatternRaises | lib/ask_and_gather_context.rb:213-223 | a `grep-context-n` ask whose pattern holds NUL raises at the backtick command |
| AskAndGatherContext.GrepRaisesOnlyOnNul | lib/ask_and_gather_context.rb:173-254 | when no parameter, glob match or grep output holds NUL, `grep-context-n` raises exactly when it has no parameter |
| AskAndGatherContext.ChoosePath | lib/ask_and_gather_context.rb:257-263 | the loop's choice equals `AskAndGatherContext.ChosenPath` of the same paths (`None` where `File.exist?` raises) |
| AskAndGatherContext.ChosenPathFirst | lib/ask_and_gather_context.rb:260-263 | the first existing path is chosen when no path before it holds NUL; a NUL in it raises |
| AskAndGatherContext.ChosenPathLast | lib/ask_and_gather_context.rb:260-263 | when none exists, the last path is chosen, unless some path holds NUL, which raises |
| AskAndGatherContext.CatContextAsk | lib/ask_and_gather_context.rb:256-289 | the method's outcome equals `AskAndGatherContext.CatDispatch`, the `cat-context` branch |
| AskAndGatherContext.CatLineNotFound | lib/ask_and_gather_context.rb:280-285 | a line number past the file's end plus the 40-line margin gives "Line not found: n, the file only has N lines" and nothing gathered; a path holding NUL is dropped with no note |
| AskAndGatherContext.CatNulPathDropped | lib/ask_and_gather_context.rb:257-268 | a path holding NUL makes `File.exist?` raise inside the `begin`, so the `rescue` drops the ask with no note |
| AskAndGatherContext.BlameDispatch | lib/ask_and_gather_context.rb:290-315 | something is gathered exactly when a path is given, holds no NUL, exists and its blame is non-empty, and it is then the output in a code fence |
| AskAndGatherContext.BlameOutcomes | lib/ask_and_gather_context.rb:290-314 | fewer than two parameters give "Path not given"; a path holding NUL is dropped with no note; a missing path gives "File not found: <path>"; empty output gives "No blame found for line: n in file: f"; otherwise the result is an empty line, then the output inside a code fence; only the last gathers |
| AskAndGatherContext.BlameLinesCharged | lib/ask_and_gather_context.rb:314-324 | a blame of k newline-terminated lines is charged k + 3 lines of the budget |
| AskAndGatherContext.RunTool | lib/ask_and_gather_context.rb:172-319 | only `grep-context-n` raises; it always raises without parameters, and when no parameter, glob match or grep output holds NUL it raises exactly then; the branch closes exactly for `close` |
| AskAndGatherContext.RunToolAsk | lib/ask_and_gather_context.rb:172-319 | the method's outcome equals `AskAndGatherContext.RunTool`, the `case tool` statement |
| AskAndGatherContext.SettleBounds | lib/ask_and_gather_context.rb:320-327 | accounting never touches `iters` or `asks`; it only appends to the blocks; `valid_lines` stays or grows by the appended result's line count, at most `max_perask_lines`; `close` changes nothing |
| AskAndGatherContext.SettleAsk | lib/ask_and_gather_context.rb:320-327 | the method's result equals `AskAndGatherContext.Settle`, the line accounting |
| AskAndGatherContext.StepBounds | lib/ask_and_gather_context.rb:137-327 | one pass keeps the loop bounds and records at most the new ask; it fails only on a new `grep-context-n` ask that has no parameter or meets a NUL character, and always fails on a new parameterless one |
| AskAndGatherContext.StepSound | lib/ask_and_gather_context.rb:137-327 | every pass on every reply keeps the loop bounds |
| AskAndGatherContext.NoAskNoChange | lib/ask_and_gather_context.rb:143-148 | a reply without an ask line leaves the session unchanged |
| AskAndGatherContext.AskRecorded | lib/ask_and_gather_context.rb:169 | a handled ask is in `asks` afterwards, even when its tool then rejects it |
| AskAndGatherContext.RepeatedAskRejected | lib/ask_and_gather_context.rb:162-168 | a repeated ask only appends the DUPLICATE note to `reask_block` |
| AskAndGatherContext.CloseStops | lib/ask_and_gather_context.rb:316-318 | `close` records the ask and ends the loop with everything else unchanged |
| AskAndGatherContext.Pass | lib/ask_and_gather_context.rb:137-327 | the method's result equals `AskAndGatherContext.Step`, one pass of the loop |
| AskAndGatherContext.LoopGrows | lib/ask_and_gather_context.rb:57-328 | `ask_block` and `reask_block` only grow by appending, and `valid_lines` never decreases |
| AskAndGatherContext.LoopAsks | lib/ask_and_gather_context.rb:57-328 | `asks` only grows, never holds a duplicate, and gains at most one entry per remaining iteration |
| AskAndGatherContext.LoopValidLines | lib/ask_and_gather_context.rb:57-327 | after any accepted result, `valid_lines` ≤ `max_valid_lines` − 1 + `max_perask_lines` |
| AskAndGatherContext.RepliesBeyondLimitUnread | lib/ask_and_gather_context.rb:57-62 | replies after the `reask_iter_limit`-th are never read, so at most that many asks are processed |
| AskAndGatherContext.AskAndGatherContext | lib/ask_and_gather_context.rb:1-330 | the while loop returns `ask_block` as the loop specification gives it, or raises where that specification raises |

## Left out

- Streaming from the model (`catch(:close)`/`throw :close` on the first
  complete ask line) is not modelled. Each ask's reply is an input,
  indexed by the ask number.
- Prompt texts, `prompt_reask`, the KV-cache warm-up and all `puts`/`print`
  output are not modelled. `reask_block` is kept in the state and its
  growth is stated, but it only ever feeds prompts.
- The `git grep`, `git blame` and `Dir.glob` shell-outs are functions of
  their arguments. Quoting and shell escaping are not modelled.
- `force_encoding` is not modelled; text is a sequence of characters.
- Everything Rugged does is left out: cherry-pick, index add and remove,
  commit creation, branch handling and the `while repo.index.conflicts?`
  loop around a resolution step. The model covers one step on a file's
  text, with the write's success as an input.
- The `porting_steps << porting_steps` self-append in the outer loop is
  left out with that loop.
- `commit_details` and the diff shown to the model are left out; they only
  feed the prompt.
- The `exit` taken when a file has no conflict block is the
  `NoMergeBlocks` outcome. The process ends there, so nothing after it is
  modelled.
- `File.read(full_path) rescue ""` is modelled by passing the file's text,
  "" when unreadable.
- `FixupIteration.Fixup`: only the outcome of the per-line loop is
  modelled (it raises on the argument-count mismatch). Blame, the prompt
  and the call to `apply_suggested_changes` inside it are not reached.
- `rllm.rb`, `lib/ui.rb`, `lib/run_ssh_commands.rb` and the HTTP helpers
  in `lib/utils.rb` are not part of this model.
- `AskAndGatherContext.RunTool`: the `blame-line` output is an input, so
  the model states no more about it than that it is fenced and counted.
- `FixupIteration.Fixup`: a diagnostic's file holding a NUL character is
  looked up like any other, while `File.exist?` would raise on it
  (lib/fixup_iteration.rb:89). Such a name can only come from the compiler
  output.
- `FixupIteration.ApplyChanges`: a file name holding NUL is looked up
  instead of raising in `File.exist?` (lib/fixup_iteration.rb:4).
- `Utils.FileContext`: a path holding NUL is looked up instead of raising
  (lib/utils.rb:3). In the ask loop every path that reaches it has passed
  `File.exist?`, or is a grep hit whose NUL the rendering turns into a
  raise first (`RenderHits`).
