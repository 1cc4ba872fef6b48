# marmel: plan documents, verdict markers, validation records, exit signals, session caps

marmel drives language-model agents through a plan: a markdown document whose task lines
are ticked as work is delivered. This project models the parts of it that decide, from text
and from files, what counts as done, and proves what they may be relied on for.

- **Plan documents** (`src/plan_parse.rs`). `Text`, `TaskId`, `Lines`, `TrailingGroups`,
  `TaskLines`, `HeadGrammar` and `PlanDocument` hold the task-line grammar, the fence
  automaton and the rewriter that ticks one box. `LineIds`, `LineForms` and `LineRoundTrips`
  say what each field of a parsed line is, for every line and for each of the plan's forms;
  `FenceBlocks` says what a block is and `PlanLists` what is read off a document.
  `CheckOffTheorems` and `CheckOffOrder` put rewriter, parser and automaton together over
  whole runs: the parse survives, pending ids are conserved, a plan drains, and the order does
  not matter. `Fences` compares the automaton with its documented rule, `Ownership` the line
  found for an id with the line a check-off ticks. `Newlines` and `NewlineCommutation` cover newline normalization,
  `IdSearch` and `LineReferences` the search for an id on a line.
- **Mission markers** (`src/markers.rs`). `Patterns` and `Counters` say which patterns can
  overlap and what blanking a benign counter leaves, `CounterValues` which counts are benign.
  `Markers` and `MarkerParse` refine the loops to a precedence table stated over the text.
  `Verdicts`, `BoundIds`, `MarkerOrder`, `FailureReasons`, `ReasonShapes`, `AbortReasons`,
  `Revocation` and `RevokedRecognition` state what a verdict, an id, a reason and a revocation
  mean.
- **Validation records** (`src/agents/prompt_builder.rs`, `src/agents/validation.rs`).
  `Records` is the directory that plan generation and ad-hoc delegation write to, with a
  success or failure for every file operation; `RecordLifecycle` proves what every reachable
  directory keeps and what the read gate may conclude, `PlanRecords` which records a plan asks
  for, line by line. `Blueprint` is the frontmatter printer and parser of the same file,
  `BlueprintLines` says what each of its lines means, `BlueprintRoundTrip` and
  `BlueprintExactness` what comes back.
- **Exit signals** (`src/main.rs`). `ExitSignal` is the shared state, `ExitRace` the
  interleaved steps of watcher, run, clock and main, `ExitEnding` how the race ends.
- **Session caps** (`src/config.rs`). `SessionCap` is the resolution of a simultaneous-session
  cap from a table whose keys are compared after normalization.

Code that loops or updates state is a method or a class, proved against a function of its
inputs or of the old state; the lemmas are about those functions. Text is a sequence of
Unicode scalar values.

## Where the code and its documentation differ

The model follows the code. The members named here state the difference, or exactly when the
promise is met.

- Normalizing a task id is documented as idempotent; it is so exactly when no decoration
  hides behind inner whitespace (`IdempotentExactlyWhen`, `SpacedBracketsNeedTwoPasses`).
- An accepted task id is documented to hold one inner dot; it may hold several
  (`AcceptsExactlyTheGrammar`, `SeveralInnerDotsAreAccepted`).
- The id bound to a completion is documented as a boundary-safe token; it is cut when it
  straddles the end of the 120-character window (`BoundIdIsWholeExactlyWhen`,
  `LongMarkerLineCutsTheId`).
- A brief decision is documented to leave no skip record behind even when the brief cannot be
  written; it does when the delete fails as well (`BriefDecisionFailsExactlyWhen`,
  `SkipCanOutliveABrief`).
- The exit code is documented to name the signal that stopped the run; between counting and
  storing it falls back to the other one, and a counter that wraps lets a later signal take
  its place (`ExitCodeExactly`, `InterruptReportedAsTermination`, `ReportedExactly`).
- The printer escapes quotes in the reasoning and the parser never removes the escape
  (`RoundTripExactlyWhen`).
- A closing fence is documented to carry no info string; the automaton accepts one, unlike
  section 4.5 of the CommonMark specification (`StrictExactlyWhen`, `CheckOffTicksAQuotedLine`).
- Benign counters are meant to be counts of zero; every count divisible by ten is one, such
  as `10 FAILED` (`ExemptAsIntendedExactlyWhen`, `TenFailedIsNoVerdict`).
- An aborted deliverable is documented to read back as aborted; a context that spells another
  verdict hands out that one's reason (`AbortReasonExactlyWhen`, `AnotherReasonIsReadBack`).
- A task is documented as pending when it appears in the plan as an unchecked line; with an id
  named twice a ticked line hides it (`PendingMeansFlipsExactlyWhen`, `DoneTaskIsTickedAgain`).
- A line without an id is documented to match by a boundary-safe search; the search misses an
  occurrence for some ids (`LinesMatchAsIntendedExactlyWhen`, `OverlappingMatchIsMissed`).

## Model

| member | source | states |
|---|---|---|
| `TaskId.AcceptsExactlyTheGrammar` | src/task_id.rs:129-173 | An id is accepted if and only if it has at most 64 characters and is a dot-separated list of non-empty runs of ASCII letters, digits, `-` and `_`; an accepted id is returned unchanged |
| `TaskId.Scan` | src/task_id.rs:144-172 | The scan reports the first offending position with that position's own error, and accepts only when there is none |
| `TaskId.OffenceExactly` | src/task_id.rs:144-172 | Per character class: a slash or backslash is a separator, then whitespace, then any other control character, then a dot at an end, then anything outside ASCII, then any remaining character that is no id character; inner dots and id characters do not offend |
| `TaskId.RejectsExactly` | src/task_id.rs:129-172 | A rejection is `Empty` if and only if the text is blank, else the length against 64, else two dots in a row, else the error of the first offending character |
| `TaskId.RunsAreDotSeparated` | src/task_id.rs:129-173 | The list-of-runs grammar and the character-by-character reading (no dot at either end, no two dots in a row) describe the same ids |
| `TaskId.SeveralInnerDotsAreAccepted` | src/task_id.rs:153-163 | Three runs joined by dots are accepted, up to 64 characters in all, although the documentation speaks of one inner dot |
| `TaskId.AcceptedIsNormalized` | src/task_id.rs:39-41 | Every accepted id is a fixed point of normalization, so the side that writes a file and the side that reads it name the same file |
| `TaskId.NormalizeExactly` | src/task_id.rs:35-41 | Normalizing whitespace, brackets or quotes, whitespace, a core, and the same behind it gives the core, for every core that is neither blank nor decorated at its ends |
| `TaskId.IdTokenAcceptedUnlessTooLong` | src/task_id.rs:129-173 | A non-empty run of id characters is accepted, or refused for its length and nothing else |
| `TaskId.IdempotentExactlyWhen` | src/task_id.rs:35-41 | Normalizing twice equals normalizing once if and only if the trimmed input hides no decoration behind inner whitespace: no run of decoration at an end, then whitespace, then decoration again with something else behind it (the documentation promises idempotence on every input) |
| `TaskId.SpacedBracketsNeedTwoPasses` | src/task_id.rs:39-41 | For every id, `[ [id] ]` normalizes to `[id]` and only a second pass reaches `id` |
| `TaskId.TaskIdEqIsKeyEquality` | src/plan_parse.rs:267-271 | The comparison holds if and only if both ids have the same lower-cased normal form and that form is not empty: it is an equivalence on non-empty ids |
| `HeadGrammar.HeadBoxIsTheRegex` | src/plan_parse.rs:214-219 | The deterministic scan finds a checkbox at a span if and only if the regular expression, read as a grammar with free choice of every repetition, matches with that span |
| `HeadGrammar.DigitsExactly` | src/plan_parse.rs:214-219 | A digit of a numbered marker is one of `0` to `9`, or outside ASCII a character at most nine behind the zero of some script |
| `TaskLines.LeadingTaskIdToken` | src/plan_parse.rs:848-882 | The offset-and-counter loops return the first run of id characters behind decoration, and skip behind it at most as many closing brackets as were opened |
| `TaskLines.ParseTaskLineAt` | src/plan_parse.rs:286-333 | A parsed task carries the line verbatim, its number and the checkbox span of the head; the id's span lies behind the box and inside the line (what it says is fixed by the line forms below) |
| `TaskLines.TickedLineParses` | src/plan_parse.rs:188-204 | Re-reading a line whose box was ticked gives the same task with the box checked and the spans moved by the width of the box; id, description, body, hint and directive are the same |
| `TaskLines.ParsedIdIsToken` | src/plan_parse.rs:301-314 | The id of a parsed line is spelled at its span, consists of id characters, starts with `t-`, and is its own normal form |
| `TaskLines.ParsedIdAcceptedUnlessTooLong` | src/plan_parse.rs:301-314 | An id read off a plan line is accepted as a file name or is longer than 64 characters |
| `LineIds.CheckboxExactly` | src/plan_parse.rs:291-299 | The box counts as ticked if and only if it holds an `x` of either case |
| `LineIds.IdExactly` | src/plan_parse.rs:301-314 | If the rest of a line starts, behind decoration, with `t-` and at least one more id character, the word up to the next other character is the id, and the description is the trimmed text behind the closing decoration, which holds no more closing brackets than were opened |
| `LineIds.NoIdExactly` | src/plan_parse.rs:301-303 | Any other rest carries no id, and its trimmed text is the description |
| `LineRoundTrips.DecoratedIsRest` | src/plan_parse.rs:848-882 | An id between any decoration with no more closing brackets than opening ones is read back as that id, with what follows as the rest |
| `LineRoundTrips.EveryLineSplits` | src/plan_parse.rs:286-314 | Every task line is a head that matches the regular expression and such a rest, and its id and description are those of the rest |
| `TrailingGroups.MatchingOpenParen` | src/plan_parse.rs:825-841 | The right-to-left depth loop computes the specification of the balancing parenthesis |
| `TrailingGroups.MatchingOpenIsTheBalance` | src/plan_parse.rs:825-841 | A position is reported if and only if the parentheses from it to the end balance there for the first time |
| `TrailingGroups.CollectGroups` | src/plan_parse.rs:786-793 | The loop collects exactly the trailing parenthesised groups, right to left |
| `TrailingGroups.SplitValidationDirective` | src/plan_parse.rs:780-817 | The nested loops return the body and directive of the specification |
| `TrailingGroups.DirectiveAndRoleRoundTrip` | src/plan_parse.rs:316-319 | For every prose, reserved word and archetype, in any case and with any spacing, splitting `prose (word) (role)` gives back the trimmed prose, the directive and the role |
| `TrailingGroups.RoleRoundTrip` | src/plan_parse.rs:735-755 | Splitting `prose (role)` gives back the trimmed prose and the lower-cased role |
| `TrailingGroups.RoleAloneIsAuto` | src/plan_parse.rs:780-817 | `prose (role)` carries no directive if and only if no trailing group of the prose itself is a reserved word, and then prose and role come back |
| `TrailingGroups.DirectiveNeedsTheExactWord` | src/plan_parse.rs:84-95 | A directive is reported only if some balanced trailing group is, after trimming and case folding, exactly its reserved word |
| `LineForms.ArchetypesExactly` | src/agents/mod.rs:85-95 | A word names an agent if and only if it is, trimmed and in any casing, one of the seven archetype words, `deepbrain` being the generalist |
| `LineForms.RoleHintExactly` | src/plan_parse.rs:735-755 | The role hint is the lower-cased word of the parenthesised group the trimmed text ends in, if that word is an archetype, and the body is the trimmed text before it; in every other case there is no hint and the body is the trimmed text |
| `LineForms.GroupsExactly` | src/plan_parse.rs:786-793 | A list of spans is what the scan collects if and only if each is balanced, each ends where the blanks before the previous one start, and none is left over |
| `LineForms.DirectiveExactly` | src/plan_parse.rs:780-817 | The directive is the right-most reserved word among the trailing groups, the right-most group counting only when it is alone; the body is the text without that group, its two sides joined by one blank, and without such a word the text as it is |
| `LineRoundTrips.FullLine` | src/plan_parse.rs:286-333 | Every line `head id d (v) (r)`, the id decorated or missing, v a reserved word and r an archetype in any casing and spacing, parses to the id, the description as written, the body `d` trimmed, the role lower-cased and the directive of v |
| `LineRoundTrips.RoleLine` | src/plan_parse.rs:286-333 | Every line `head id d (r)` whose prose ends in no reserved word parses to the id, the description, the trimmed prose, the role and no directive |
| `LineRoundTrips.DirectiveLine` | src/plan_parse.rs:286-333 | Every line `head id d (v)` whose prose ends in no group parses to the id, the description, the trimmed prose, no role and the directive |
| `LineRoundTrips.ProseLine` | src/plan_parse.rs:286-333 | Every line `head id d` whose prose ends in no group parses to the id, the description, the trimmed prose, no role and no directive |
| `LineRoundTrips.ReversedLine` | src/plan_parse.rs:770-817 | Every line `head id d (r) (v)` keeps both groups in its body and reports neither role nor directive |
| `Lines.ChunksRoundTrip` | src/plan_parse.rs:517-524 | Splitting a document into lines with their own terminators and concatenating them gives the document back |
| `Lines.UnchunkRoundTrip` | src/plan_parse.rs:517-524 | Every list of well-formed lines is the split of its own concatenation |
| `Lines.ReplaceBody` | src/plan_parse.rs:525-534 | Replacing the body of one line changes no other line and no terminator when the document is split again |
| `PlanDocument.ScannableLines` | src/plan_parse.rs:373-393 | The fence automaton's loop keeps the lines of the specification with their numbers, which are exactly those in no block that are no delimiter (KeptLinesExactly) |
| `FenceBlocks.DelimiterExactly` | src/plan_parse.rs:352-363 | A line is a delimiter of n times c if and only if c is a backtick or a tilde, n is at least three, and behind nothing but whitespace the line has exactly n times c in a row |
| `FenceBlocks.InsideExactlyWhen` | src/plan_parse.rs:373-393 | The automaton is inside a block before a line if and only if some delimiter above it, itself in no block, is followed by no delimiter of the same character and at least its length before the line |
| `FenceBlocks.ScannableExactlyWhen` | src/plan_parse.rs:373-393 | A line is scanned for tasks if and only if it is in no block and is no delimiter |
| `PlanLists.KeptLinesExactly` | src/plan_parse.rs:373-393 | The kept lines are exactly those, each with its own text, in the order of the document |
| `PlanLists.TasksExactly` | src/plan_parse.rs:342-346 | The tasks of a plan are exactly its unfenced task lines, each under its own line number, in the order of the document |
| `PlanLists.PendingIdsExactly` | src/plan_parse.rs:404-410 | The pending ids are those of the open boxes with an id, in the order of the document and none missing |
| `Fences.StrictExactlyWhen` | src/plan_parse.rs:348-393 | The automaton is in the state the documented rule gives before every line, if and only if no line closes a block while carrying an info string |
| `Fences.CheckOffTicksAQuotedLine` | src/plan_parse.rs:373-393 | Behind a closing line with an info string a call ticks a line that the documented rule still quotes |
| `PlanDocument.CheckOff` | src/plan_parse.rs:508-542 | The rewriting loop over newline-inclusive pieces returns the document and flag of the specification of check-off |
| `CheckOffTheorems.TaskLineIsNoFence` | src/plan_parse.rs:352-363 | No task line, ticked or not, is a fence delimiter |
| `CheckOffTheorems.FlipsIsPending` | src/plan_parse.rs:487-497 | A line is a candidate of a call if and only if it is outside every fence and parses as a pending task whose id has the same key |
| `CheckOffTheorems.TasksKept` | src/plan_parse.rs:342-346 | Ticking one task line changes neither the fence state before any line nor the task read from any other line |
| `CheckOffTheorems.CheckOffTicksFirstPending` | src/plan_parse.rs:508-542 | A call that flips replaces the box of the first unfenced pending line of the id and no other character; one that does not returns the document as it was, and no such line exists |
| `CheckOffTheorems.CheckOffPreservesParse` | src/plan_parse.rs:508-542 | Re-parsing the result gives the same fences, lines and tasks with exactly one checkbox changed |
| `CheckOffTheorems.CheckOffRemovesOneKey` | src/plan_parse.rs:404-410 | A call flips if and only if its id is pending; the multiset of pending ids loses one occurrence of that id, and open boxes without an id stay |
| `CheckOffTheorems.RunConservesPending` | src/plan_parse.rs:404-410 | Over every run of calls, with ids repeated, unknown or differently spelled: pending ids afterwards are those before minus those asked for, and the number of flips is the difference |
| `CheckOffTheorems.DrainAnyOrder` | src/plan_parse.rs:404-410 | Asking once per pending id, in any order and any spelling, flips a box on every call and leaves no id pending; boxes without an id stay open |
| `Ownership.OwnerIsFirst` | src/plan_parse.rs:442-451 | The task line found for an id is the first unfenced line that owns its key, ticked or not |
| `Ownership.OwnerIsPendingExactlyWhen` | src/plan_parse.rs:455-457 | The plan calls a task pending if and only if some line of its id is and no ticked line of it stands before the first of them |
| `Ownership.PendingMeansFlipsExactlyWhen` | src/plan_parse.rs:455-457 | For every text and id, the plan calls the task pending exactly when a check-off would flip a box, if and only if no ticked line of the id stands before its first pending one |
| `Ownership.DoneTaskIsTickedAgain` | src/plan_parse.rs:455-457 | A plan that names an id twice: the task does not count as pending, and a check-off still flips a box for it |
| `CheckOffOrder.OutcomeUnique` | src/plan_parse.rs:508-542 | What check-off promises determines the resulting document and flag |
| `CheckOffOrder.CheckOffByKey` | src/plan_parse.rs:264-271 | Ids with the same key tick the same line |
| `CheckOffOrder.CheckOffsCommute` | src/plan_parse.rs:487-542 | Ticking a then b gives the same document as b then a; for different keys neither flag depends on the order |
| `CheckOffOrder.OrderIsIrrelevant` | src/plan_parse.rs:487-542 | Two runs that ask for the same multiset of keys end in the same document |
| `Newlines.NormalizeNewlines` | src/plan_parse.rs:553-570 | The peeking loop, including its early exit, computes the normalization |
| `Newlines.NormalizedHasNoCarriageReturn` | src/plan_parse.rs:553-570 | The normalized text holds no carriage return |
| `Newlines.ReturnBecomesNewline` | src/plan_parse.rs:553-570 | The first CR and the LF behind it, if there is one, become one LF, and everything behind them is normalized likewise |
| `Newlines.NormalizationIsIdempotent` | src/plan_parse.rs:553-570 | Normalizing twice equals normalizing once on every text |
| `Newlines.NormalizedLines` | src/plan_parse.rs:544-570 | On texts where each CR is followed by LF, the normalized text has the same lines, each ended by LF |
| `Newlines.NormalizationCommutesWithCheckOff` | src/plan_parse.rs:508-570 | On those texts, normalizing before or after a check-off gives the same document and the same flag |
| `Newlines.LoneCarriageReturnUncoversATask` | src/plan_parse.rs:508-570 | On a CR without LF it does make a difference: normalizing splits the line and uncovers a pending line that the call on the original text does not tick |
| `NewlineCommutation.CheckOffSplices` | src/plan_parse.rs:508-542 | A call writes the ticked box over an open checkbox at the span it reports, or reports none and writes nothing |
| `NewlineCommutation.CommuteExactlyWhen` | src/plan_parse.rs:508-570 | For every text, normalizing before or after a check-off gives the same document and flag if and only if both calls find nothing to tick, or the box found in the normalized text is the image of the one found in the text |
| `IdSearch.FoundTokenIsFirst` | src/plan_parse.rs:223-262 | The token found is the leftmost one bounded on both sides, and none is found only if there is none |
| `IdSearch.SearchClear` | src/plan_parse.rs:605-631 | The skipping loop reports whether one of the non-overlapping matches has clear boundaries |
| `IdSearch.LineMatchesTaskId` | src/plan_parse.rs:593-632 | The line's own id decides when there is one, the boundary search otherwise |
| `LineReferences.TaskIdOfLineExactly` | src/plan_parse.rs:580-586 | A line without a checkbox has no id; a task line has its own id, or without one the leftmost token bounded on both sides, lower-cased |
| `LineReferences.RefersExactly` | src/plan_parse.rs:593-632 | A line refers to an id of id characters if and only if its id has the same key, or, having none, the key stands in the lower-cased line with no alphanumeric character, dash or underscore on either side |
| `IdSearch.SkippingSearchIsCompleteExactlyWhen` | src/plan_parse.rs:605-631 | The skipping search finds a clear occurrence whenever there is one, in every text, if and only if the target cannot follow itself at a distance with a non-word character in front |
| `IdSearch.LinesMatchAsIntendedExactlyWhen` | src/plan_parse.rs:593-632 | The same for whole lines without an id of their own, in terms of the normalized target id |
| `IdSearch.SkippingSearchIsComplete` | src/plan_parse.rs:605-631 | So for a target of id characters the skipping search succeeds if and only if any occurrence at all has clear boundaries |
| `IdSearch.OverlappingMatchIsMissed` | src/plan_parse.rs:605-631 | For a target with an inner blank it can miss one: `a a` in `xa a a` |
| `Patterns.FindAllIsExact` | src/markers.rs:651-661 | For a pattern that cannot overlap itself the skipping scan finds every occurrence |
| `Patterns.SpliceOccurrences` | src/markers.rs:589-598 | Around a spliced-in text that a pattern cannot overlap, the pattern occurs exactly where it does in the parts |
| `Patterns.SpliceCount` | src/markers.rs:589-598 | Such a splice neither adds nor loses an occurrence: the counts of the parts add up |
| `Counters.PhrasesApart` | src/markers.rs:76-79 | No two benign counter phrases can overlap, whatever the text |
| `Counters.SanitizeFailureCounters` | src/markers.rs:603-611 | Both loops end, and the result is the text of the same length in which exactly the positions covered by a counter phrase of the original text are blank |
| `Counters.SolidSurvives` | src/markers.rs:600-611 | A pattern without two blanks in a row occurs in the blanked text if and only if it occurred and no phrase touched it: blanking creates none |
| `Counters.PhraseSurvives` | src/markers.rs:603-611 | Blanking some phrases leaves every other phrase in place and creates no new one |
| `Counters.MarkersSurviveBlanking` | src/markers.rs:603-637 | Completion and replan markers occur in the blanked text exactly where they did before |
| `Counters.FailedSurvivesUnlessBenign` | src/markers.rs:257-259 | A `FAILED` is left standing if and only if it is not the end of a counter phrase |
| `CounterValues.BenignExactlyWhen` | src/markers.rs:76-79 | A `FAILED` is exempt if and only if it ends a count whose number is divisible by ten |
| `CounterValues.ExemptAsIntendedExactlyWhen` | src/markers.rs:76-79 | The exemption coincides with a count of zero at a `FAILED` if and only if it does not end a round count other than zero |
| `CounterValues.ZeroExactlyWhen` | src/markers.rs:76-79 | A count is zero if and only if every digit of its number is zero |
| `CounterValues.RoundCountIsNoVerdict` | src/markers.rs:151-222 | A text that is any digits followed by `0 FAILED` is no verdict, whatever counts as negation |
| `CounterValues.TenFailedIsNoVerdict` | src/markers.rs:151-222 | `10 FAILED` is no verdict although it is a round count |
| `Markers.BuildLineMap` | src/markers.rs:664-683 | The two loops compute the line starts and the last line that is not blank |
| `Markers.LineIndexCounts` | src/markers.rs:688-691 | The line found for a position is the number of newlines before it |
| `Markers.TerminalIffLast` | src/markers.rs:675-700 | A position is on the terminal line if and only if everything behind its line is blank |
| `Markers.PlacementMeans` | src/markers.rs:687-700 | Placement is line start, terminal line or embedded exactly as the text around the position shows |
| `MarkerParse.FindAllLoop` | src/markers.rs:651-661 | The loop returns the left-to-right matches |
| `MarkerParse.Classify` | src/markers.rs:624-634 | The loop classifies each match of one kind in order |
| `MarkerParse.Occurrences` | src/markers.rs:614-637 | The nested loops return the list of the specification |
| `MarkerParse.OccurrencesExact` | src/markers.rs:614-637 | An occurrence is listed if and only if its token is there in the blanked text, with exactly the classification of that place |
| `MarkerParse.ParseIsTheTable` | src/markers.rs:151-222 | The parser agrees with the precedence table stated over the text alone, row by row: replan; a standing `FAILED` that starts its line or is followed, whitespace aside, by a colon or an opening bracket; a completion without a cue in the 64 characters before it that starts its line or is on the last line; any standing `FAILED`; any completion without a cue; nothing |
| `MarkerParse.VerdictShapedExactly` | src/markers.rs:715-721 | A marker is verdict-shaped if and only if at some position behind it stands a colon or an opening bracket with nothing but whitespace between |
| `Verdicts.ShapedFailureWins` | src/markers.rs:169-176 | A standing `FAILED` in that shape anywhere in a text makes the verdict a failure or a replan |
| `Verdicts.ClauseStandsExactly` | src/markers.rs:600-611 | The word of a failure clause stands if and only if the text before it does not end in `0 `, `0 test ` or `0 tests ` in any casing |
| `Verdicts.FailureClauseWins` | src/markers.rs:165-176 | `FAILED: ...` and `FAILED (...)`, in any casing and spacing, behind any text that does not count zero failures and before any text, parse to a failure, or to a replan if the text holds a replan marker, and never to a completion |
| `Verdicts.CompleteExactlyWhen` | src/markers.rs:151-222 | Completion is reported if and only if there is no replan marker, no `FAILED` at a line start or in verdict shape, and either a non-negated authoritative completion, or no standing `FAILED` at all and some non-negated completion |
| `Verdicts.BoundIdIsOnTheMarkerLine` | src/markers.rs:737-763 | An id handed out with a completion is a token behind a counting marker on that marker's own line, bounded on the left, and on the right unless the 120-character window ends there |
| `BoundIds.WindowShows` | src/markers.rs:737-746 | Of the first token of a line, a window shows all if it ends inside, the part inside if at least three characters of it are, and otherwise no token at all |
| `BoundIds.CompletionBindsExactly` | src/markers.rs:181-220 | A completion carries no id if and only if no marker asked shows one, and otherwise what the first marker that shows one has in view |
| `MarkerOrder.AskedExactly` | src/markers.rs:181-220 | The markers asked for an id are, first, the leftmost authoritative completion that starts its line, or without one the leftmost on the last line, then every authoritative completion from left to right; when none is authoritative, the completions without a cue from left to right |
| `BoundIds.BoundIdHasAToken` | src/markers.rs:737-763 | Every id handed out comes from a marker whose line holds a task-id token |
| `BoundIds.BoundIdIsWholeExactlyWhen` | src/markers.rs:737-763 | The id handed out is the first token of that marker's line, cut at the end of the window; it is the whole token if and only if the token ends within 120 characters of the marker |
| `BoundIds.LongMarkerLineCutsTheId` | src/markers.rs:737-746 | A marker, 117 blanks and `t-10` is reported as the completion of `t-1`, which the text does not name |
| `Verdicts.FailureTrailerWins` | src/markers.rs:169-176 | Any body, a newline and a failure trailer parse to a replan if the whole holds a replan marker and to a failure otherwise, never to a completion |
| `Verdicts.AbortedDeliverableFails` | src/markers.rs:315-317 | An aborted deliverable always parses to a failure or a replan |
| `FailureReasons.AbortReasonIsRecovered` | src/markers.rs:480-509 | If the context holds no replan marker and no `FAILED (`, the reason read back from an aborted deliverable is exactly the abort reason |
| `ReasonShapes.ReplanReasonIsRead` | src/markers.rs:480-516 | `REPLAN REQUIRED`, a task in brackets or none, a colon and a text read back as the first line of that text that is not blank, trimmed, whatever failure verdicts the text holds |
| `ReasonShapes.ReplanClause` | src/markers.rs:489-502 | Behind a bracketed task the colon is optional |
| `ReasonShapes.BracketReasonIsRead` | src/markers.rs:480-509 | Without a replan marker, the first `FAILED (` reads back what is in its brackets, trimmed, unless that is blank |
| `ReasonShapes.ColonReasonIsRead` | src/markers.rs:480-516 | With neither, the first `FAILED:` reads back the first line behind it that is not blank, trimmed |
| `AbortReasons.AbortReasonExactlyWhen` | src/markers.rs:480-509 | For every context: the reason read back is the abort reason if and only if a replan verdict says so or, when none says anything, the context holds no `FAILED (`, or the first one's clause is closed and trims to the reason, or that clause is blank and the first `FAILED:` line trims to it |
| `AbortReasons.NoReplanSaysNothing` | src/markers.rs:443-456 | Without a replan marker in the context the replan verdict says nothing |
| `AbortReasons.AnotherReasonIsReadBack` | src/markers.rs:480-509 | For the context `FAILED (x)` the reason read back is `x` |
| `Revocation.RevokeCompletion` | src/markers.rs:589-598 | The right-to-left splices give the left-to-right replacement of every match, leaving all other characters in order |
| `Revocation.NoCompletionLeft` | src/markers.rs:589-598 | No completion marker is left in any casing |
| `Revocation.RevocationIsIdempotent` | src/markers.rs:589-598 | Revoking twice equals revoking once |
| `Revocation.RewriteKeeps` | src/markers.rs:589-598 | A pattern that can overlap neither the marker nor its replacement occurs as often after the rewrite as before |
| `Revocation.ReplanKept` | src/markers.rs:589-598 | The text holds as many replan markers after the rewrite as before |
| `Revocation.CountersKept` | src/markers.rs:589-611 | The text holds as many of each benign counter after the rewrite as before |
| `Revocation.FailedKept` | src/markers.rs:589-611 | The text holds as many standing `FAILED` after the rewrite as before |
| `Revocation.VerdictAfterRevocation` | src/markers.rs:151-222 | After revocation the verdict is replan if the text held a replan marker, else failed if it held a standing `FAILED`, else none |
| `RevokedRecognition.RecognizedExactlyWhen` | src/markers.rs:379-400 | A text is recognized as revoked if and only if it spells no completion in any casing and some `REVOKED`, in any casing, starts its line and is not followed by an alphanumeric character or an underscore |
| `Revocation.LineInitialCompletionIsRecognized` | src/markers.rs:379-400 | A completion at the start of its line, not followed by a word character, leaves a text that is recognized as revoked |
| `Records.PromptsDir.constructor` | src/agents/prompt_builder.rs:947-951 | A fresh prompts directory holds no file |
| `Records.PromptsDir.Write` | src/agents/prompt_builder.rs:1078-1092 | A write stores the text, does nothing, or leaves something else under that name, as its outcome says |
| `Records.PromptsDir.DeleteStaleSkipRecord` | src/agents/prompt_builder.rs:724-740 | Deletes the skip record of an acceptable id if the delete succeeds; touches nothing else and reports nothing |
| `Records.PromptsDir.DeleteStaleBrief` | src/agents/prompt_builder.rs:750-762 | Tells a removed brief, no brief and a delete that ended in another error apart, with the directory each leaves; a refused id has no brief |
| `Records.PromptsDir.WriteSkipRecord` | src/agents/prompt_builder.rs:777-804 | Writes the one-line record of an acceptable id and names it if and only if the write succeeded |
| `Records.PromptsDir.ProcessItem` | src/agents/prompt_builder.rs:953-1094 | One plan item leaves the directory and the reported names of its sequence of actions |
| `Records.PromptsDir.PregenerateForPlan` | src/agents/prompt_builder.rs:942-1098 | The loop over a plan leaves exactly the directory and the list of names of its sequence of actions, which PlanActionsExactly reads off the lines of the plan |
| `Records.PromptsDir.RecordAdhoc` | src/agents/prompt_builder.rs:843-906 | An ad-hoc record is written, and its name returned, exactly for an acceptable id of a validated role that no plan line owns, once a stale brief is gone |
| `PlanRecords.PlanActionsExactly` | src/agents/prompt_builder.rs:624-717 | For every plan and id: a brief is attempted if and only if the id is acceptable and some pending line of it is not `(no-validate)` and names neither planner nor validator; a skip record if and only if some pending line of it is `(no-validate)`; a prompt if and only if it has a pending line; and nothing else is done |
| `PlanRecords.LineActions` | src/agents/prompt_builder.rs:953-1094 | One pending line saves its prompt first and then attempts at most one record |
| `PlanRecords.LastWordDecides` | src/agents/prompt_builder.rs:942-1098 | Of several lines of one id the last one that asks for a record decides: the run ends on its decision, and on none if no pending line asks for one |
| `PlanRecords.GeneratedExactly` | src/agents/prompt_builder.rs:942-1098 | A name is reported if and only if some action wrote the file of that name |
| `PlanRecords.AdhocExactlyWhen` | src/agents/prompt_builder.rs:843-906 | An ad-hoc skip record is attempted if and only if the id is acceptable, the role is neither planner nor validator, and no unfenced line of the plan owns the id; otherwise nothing is done |
| `RecordLifecycle.GateSkipsExactlyWhen` | src/agents/validation.rs:328-397 | The gate reports "skipped by design" if and only if the directory exists, the id is acceptable, its brief is absent and its skip record is readable and not blank |
| `PlanRecords.GateExactly` | src/agents/validation.rs:313-397 | The gate's answer in every case: an unacceptable id is a gap with its own error; a readable brief that is not blank is audited; without one, and without a prompts directory, the role prompt is; with a directory it is a skip with the trimmed reason if the skip record counts, and otherwise a gap |
| `RecordLifecycle.BriefIsNoSkip` | src/agents/prompt_builder.rs:653-673 | No brief is named like a skip record, for any two ids |
| `RecordLifecycle.PromptNameCollides` | src/agents/prompt_builder.rs:132-133 | A prompt is named like a brief or a skip record if and only if its id is another id with that suffix |
| `RecordLifecycle.RunInvariant` | src/agents/prompt_builder.rs:942-1098 | Over every run, whatever fails: a skip record exists only after a skip decision, or where a failed delete let it outlive a brief decision, or as a prompt saved under that name; beside a brief only in the last two cases or when the brief is such a prompt |
| `RecordLifecycle.RecordsNeverContradict` | src/agents/validation.rs:328-397 | Over every run in which deleting stale skip records succeeds and all else may fail: no id has both records, and the gate skips only ids whose last decision was a skip, unless a prompt was saved under the name of one of its records |
| `RecordLifecycle.CollisionFreeTakesNothing` | src/agents/prompt_builder.rs:132-133 | Prompts whose ids are not another id with a record suffix take no record's name |
| `RecordLifecycle.PromptReadsAsSkip` | src/agents/prompt_builder.rs:132-133 | A prompt saved for an id with the skip suffix appended makes the gate skip an id no decision was taken for |
| `RecordLifecycle.BriefDecisionFailsExactlyWhen` | src/agents/prompt_builder.rs:1072-1092 | A brief decision leaves both records if and only if there was a skip record that could not be deleted and a brief is there or a write, complete or torn, leaves one; it leaves a state that reads as a skip if and only if the state read as a skip before, the delete failed and the write was refused without effect |
| `RecordLifecycle.SkipCanOutliveABrief` | src/agents/prompt_builder.rs:1072-1092 | Two decisions that end in that state: the last decision was a brief, and the gate skips |
| `RecordLifecycle.DecisionGoverns` | src/agents/validation.rs:313-397 | A decision whose file got written is what the gate reports after any further actions that do not decide for the id, unless one of them saves a prompt under the name of one of its records |
| `RecordLifecycle.SkipComesFromThePlanLine` | src/agents/prompt_builder.rs:624-641 | Generating a plan decides to skip only for a pending line outside every fence that carries the id and spells the reserved word in a trailing group of its own |
| `Blueprint.ReadFrontmatter` | src/agents/prompt_builder.rs:198-249 | The line loop with its current-list state reads the frontmatter as the line-by-line specification does |
| `BlueprintLines.BulletLine` | src/agents/prompt_builder.rs:205-218 | In a list, a line that starts with a dash or a star is the item behind any further dashes, stars and spaces, trimmed and without quotes; an empty one is no item |
| `BlueprintLines.BareLine` | src/agents/prompt_builder.rs:218-227 | In a list, a line without a colon that is no bullet is an item as it stands; bullets alone are none |
| `BlueprintLines.PairLine` | src/agents/prompt_builder.rs:228-252 | A line with a colon that is no item sets the field its key names in any casing, to the trimmed value without quotes, and ends the list |
| `BlueprintLines.SilentLine` | src/agents/prompt_builder.rs:201-204 | A blank line changes nothing, nor does a line without a colon outside a list |
| `BlueprintRoundTrip.ReadsFrontLines` | src/agents/prompt_builder.rs:198-249 | Reading the printed lines of any blueprint gives its scalars without the quotes around them, its non-empty items in order, and a task id unless it is empty |
| `BlueprintRoundTrip.FirstDashesEndIt` | src/agents/prompt_builder.rs:185-190 | The first dashes behind the opening ones are the closing ones |
| `BlueprintRoundTrip.ParseOfPrint` | src/agents/prompt_builder.rs:152-263 | Every blueprint whose fields hold no newline and no three dashes in a row reads back, with quotes around values and empty items gone, quotes in the reasoning escaped and the prompt trimmed; empty lists and an empty prompt included |
| `BlueprintRoundTrip.ReasoningSurvivesExactlyWhen` | src/agents/prompt_builder.rs:170 | The reasoning reads back unchanged if and only if it holds no quote, because escapes are never undone |
| `BlueprintExactness.ParsedIsOneLine` | src/agents/prompt_builder.rs:182-263 | Nothing a parse returns holds a newline, and its prompt is trimmed, whatever the text |
| `BlueprintExactness.FrontmatterEndsWhereItShould` | src/agents/prompt_builder.rs:182-190 | If a printed blueprint reads back as itself, nothing in its frontmatter looks like the end of it |
| `BlueprintExactness.ReadBackExactlyWhen` | src/agents/prompt_builder.rs:152-263 | What a blueprint reads back as is that blueprint if and only if no value but the reasoning starts or ends with a quote, the reasoning holds none, no item and no present task id is empty, and the prompt is trimmed |
| `BlueprintExactness.RoundTripExactlyWhen` | src/agents/prompt_builder.rs:152-263 | For every blueprint: it reads back as itself if and only if its fields hold no newline and no three dashes in a row and the conditions above hold |
| `ExitSignal.SignalState.constructor` | src/main.rs:87-100 | No signal has been seen: zero count, no marker, no permit |
| `ExitSignal.SignalState.Observe` | src/main.rs:105-118 | One uninterrupted recording: the wrapping count, the saturating result, and either marker and exit permit or the force permit |
| `ExitSignal.ObservedAllExactly` | src/main.rs:105-118 | After any number of arrivals: the count modulo 2^32, the marker of the arrival that opened the last lap, the exit permit after one and the force permit after two |
| `ExitSignal.ReportedExactly` | src/main.rs:127-130 | The reported signal is the first one if and only if the counter has not wrapped, and otherwise the one that followed the last wrap |
| `ExitRace.UninterruptedObserve` | src/main.rs:105-118 | The watcher's interleaved steps, taken without interruption, have the effect of the method |
| `ExitRace.RunKeepsInvariant` | src/main.rs:275-308 | Every step of watcher, run, clock and main keeps the protocol's invariant, over every interleaving |
| `ExitRace.NoArrivalIsLost` | src/main.rs:275-290 | While the race waits and a signal has arrived, the request is there to take or the watcher is about to issue it for the first arrival |
| `ExitRace.ExitIsRequestedOncePerLap` | src/main.rs:105-118 | The exit permit is issued exactly once per lap of the counter: at most once up to 2^32 arrivals |
| `ExitRace.LaterArrivalsKeepTheSignal` | src/main.rs:110-116 | Once recorded, the first signal stays the recorded one over every continuation with at most 2^32 arrivals |
| `ExitRace.SignalledMeansAnArrival` | src/main.rs:275-308 | A run that counts as signalled saw a signal; one that counts as completed finished (which way it ended is OutcomeIsTheEnding) |
| `ExitEnding.OutcomeIsTheEnding` | src/main.rs:275-308 | Every run of the protocol ends its race at most once; the outcome is completed if that is the run's own end, before or in the grace, and signalled if it is an early signal, a second signal or the end of the grace; the process reports the run's own verdict if and only if it completed |
| `ExitEnding.AnyEndingDecides` | src/main.rs:275-308 | Any step of a run that ends the race, wherever it is, fixes the outcome the run has in the end |
| `ExitEnding.EndingsAreEarned` | src/main.rs:275-308 | A race is completed only after the run finished, forced only with two signals in, given up only after a whole grace in which the run did not finish, and skipped only with a signal in |
| `ExitEnding.NoForceIsLost` | src/main.rs:291-305 | In the grace, with two signals in, the race can be forced or the watcher is about to see to it |
| `ExitRace.RaceEndsWhenDue` | src/main.rs:291-308 | The race is never on later than one grace after the request, nor after a second arrival; when that moment has come it has a step to take |
| `ExitRace.RaceEndsAfterArrival` | src/main.rs:275-308 | From the signals themselves: the race is never on later than a grace after the first arrival, nor after a second one, by more than the time the watcher spent inside recordings |
| `ExitRace.ExitCodeExactly` | src/main.rs:495-504 | For any number of arrivals, the exit code of a signalled run is 128 plus the number of the signal whose marker was stored last, or of the fallback if none was; one was stored whenever the run got as far as the grace |
| `ExitRace.ExitCodeNamesTheFirstSignal` | src/main.rs:495-504 | Until the counter wraps, the exit code is 128 plus the first signal's number if and only if its marker had been stored or it is the fallback |
| `ExitRace.InterruptReportedAsTermination` | src/main.rs:125-130 | An interleaving in which an interrupt during startup is reported as a termination |
| `SessionCap.SortSorts` | src/config.rs:149 | Sorting gives the entries in order and is a permutation |
| `SessionCap.LessExactly` | src/config.rs:149 | One raw key is before another if and only if they agree up to a position where the first one ends or has the smaller character |
| `SessionCap.NormalizedBackends` | src/config.rs:143-155 | Whatever order the entries are enumerated in, each normalized key gets the value of its smallest raw key, and no other key is there |
| `SessionCap.EnumerationIsIrrelevant` | src/config.rs:138-155 | The normalized table is the same for every enumeration order |
| `SessionCap.ResolveSessionCap` | src/config.rs:603-628 | The cap is that of the smallest matching raw key, else the default, else none; a zero is rejected and leaves the backend unlimited |
| `SessionCap.SpellingsResolveAlike` | src/config.rs:603-628 | URLs with equal keys, under any two enumerations, resolve to the same cap, and the limit is never zero |
| `SessionCap.MatchedZeroIsUnlimited` | src/config.rs:614-621 | A matching override of zero makes the backend unlimited whatever the default is |
| `SessionCap.SpellingsShareAKey` | src/config.rs:569-571 | Whitespace around a URL and slashes behind it do not change its key |
| `SessionCap.KeyIsStableExactlyWhen` | src/config.rs:569-571 | Normalizing a key again changes nothing if and only if no whitespace stands in front of the slashes that end the trimmed URL |
| `SessionCap.SpaceBeforeSlashIsNotStable` | src/config.rs:569-571 | `a /` normalizes to `a` with a trailing blank, and that to `a` |

## Left out

- Offsets and windows count characters here and bytes in the program: the 64 and the 120 in
  front of and behind a marker differ on text that is not ASCII, and cutting a character in
  half, which the program guards against, cannot arise.
- Verdicts.CompleteExactlyWhen: the negation expression in front of a marker is a parameter, so what it
  matches is not stated; it reads up to 64 characters before the marker.
- IdSearch.SkippingSearchIsComplete: `is_alphanumeric` is a parameter that includes the ASCII letters and
  digits; the Unicode tables behind it are not modelled.
- ExitRace.RaceEndsAfterArrival: the clock waits for a race that has something to take, so time spent
  scheduling it is not counted; the time the watcher spends inside recordings appears as a lag.
- ExitRace.ExitCodeNamesTheFirstSignal: stated up to 2^32 arrivals; behind that the reported signal is
  the one ExitRace.ExitCodeExactly gives.
- ExitRace.LaterArrivalsKeepTheSignal: stated up to 2^32 arrivals; behind that a later signal takes its
  place, as ExitSignal.ReportedExactly says.
- Atomic memory ordering: the steps of the watcher and of main interleave, but each is atomic
  and seen by all.
- BlueprintExactness.RoundTripExactlyWhen: takes from the clock a text on one line without three dashes in a
  row, as RFC 3339 timestamps are.
- The fallback that reads tool names from a text without frontmatter (src/agents/prompt_builder.rs:265-299).
- The texts of prompts and briefs, the reason of an I/O error and the clock are parameters.
- RecordLifecycle.RecordsNeverContradict: assumes that deletes of stale skip records succeed;
  RecordLifecycle.BriefDecisionFailsExactlyWhen gives what happens when they do not.
- LineReferences.RefersExactly: stated for ids of id characters, as plans carry them; for every other id
  IdSearch.LinesMatchAsIntendedExactlyWhen gives the condition.
- The validator's own run behind the read gate, and the collapse of its answer into a verdict.
- The labels and messages of a session cap: their source key is kept, their wording is not.
- The structured marker field that takes precedence over the parsed text, the presence tests
  for single markers, and the tables of negative verdict words: one-branch facts.
- Progress accounting, archiving and display helpers over the parsed plan.
- Language-model calls, async runtime, logging, terminal interface, MCP clients, sandboxing and the
  remaining configuration.
