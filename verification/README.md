# OpenClaw tooling in Dafny

Models of the parts of OpenClaw's build and translation tooling that carry an algorithm or a protocol,
with proofs of what they keep. `dafny verify dfyconfig.toml` checks all of it.

| file | what it models |
|---|---|
| `RunProcess`, `ParentSignals`, `PendingPromises`, `ProcessRunner`, `NodeProcess` | the child processes of `runProcess`: one run as an automaton over its event-loop callbacks; any number of runs in any interleaving, sharing a registry and one relayed parent signal; the promises that are never settled; the closures and the registry as objects; and the process that delivers the events to these objects, proved to move exactly as the automaton does |
| `BoundedOutput` | the bounded capture of a child's output |
| `TranslationBatches`, `TranslateBatch` | the greedy batcher, and the retry-and-split recursion against an arbitrary provider |
| `EntryPartition`, `DeclarationPartitions` | least-loaded list scheduling of entry groups, and the split of the declaration build |
| `KotlinInterpolation`, `AndroidRender`, `AndroidEscape` | Kotlin interpolations as positional format arguments, and the escape and decode chains of Android resources |
| `BalancedText`, `Delimiters`, `Guardrails`, `TopLevelSplit` | three scanners for a closing delimiter that skip string literals, two splitters at top-level commas, and what both kinds mean independently of any scan |
| `JsonEnvelope` | the brace and quote scan that cuts a JSON object off the front of a text |
| `OutputReservation` | the check-then-mkdir loop that reserves an output directory under contention |
| `AppleCatalog`, `TranslationChoice` | the Apple string catalogue as a merge, and the two rules that pick a translation |
| `PatternMatch`, `CatalogAnalysis`, `RestartProbe` | the dotted path patterns, the catalogue comparison and the restart probe, each against a declarative meaning |
| `Common`, `Text`, `Placeholders` | result types, lists of lists, JavaScript string operations, and the `{name}` placeholders of a text |

Loops and mutated closures are methods and objects, proved against a function or a predicate; the properties are
lemmas about that function. Callbacks, providers, the file system, clocks and the answers of system calls are
parameters, so every lemma holds for all of their behaviours. A run of a concurrent system is a sequence of events
in any order (`Possible`, `After`).

## Where the code does less than one would expect

Each of these is proved together with the exact condition under which the expected property holds.

- A relayed parent signal can be lost: when a run is started during the kill grace of a signalled one and outlives it,
  nothing re-raises the signal (`ParentSignals.LateStartLosesTheSignal`). A signal is beyond recovery exactly when every
  run it reached is done and closed (`ForgottenIff`), exactly a last look at the registry in vain makes it so
  (`ForgottenExactlyWhen`), and if no run starts after the signal it never is (`RelayIsNeverLost`, `RelayIsRemembered`).
- A call can wait for ever: the close of a child does not settle its promise during a relay, so unless a kill grace
  that a timeout started is still to end, behind a close that found the group alive, only an error settles it
  (`PendingPromises.HangsIff`). Four kinds of callback bring that about (`HangsExactlyWhen`), the ordinary close of a
  relayed child among them; it is hidden when the re-raise ends the process, and seen when the signal is lost
  (`LateStartHangs`).
- With a limit of zero, `slice(-0)` keeps the whole text (`BoundedOutput.ZeroLimitKeepsEverything`,
  `CaptureExactIffPositiveLimit`); the limit `runProcess` resolves is always positive.
- An empty batch can take two prompts, so the bound 4n - 2 holds exactly from one item on
  (`TranslateBatch.PromptsAreBounded`, `BoundIsReached`); neither the batcher nor the halves produce an empty batch.
- A written Android value comes back unchanged exactly when no backslash stands before the letter n
  (`AndroidEscape.RoundTripIffNoBackslashN`).
- A policy pattern that matches another one read as a path contains its paths, whatever the first pattern, if and only if
  the second has no `**` (`PatternMatch.PatternStandsForItsPathsIff`).
- On an empty candidate list the Apple rule answers the source and the Android rule the empty string
  (`TranslationChoice.ChoicesAgree`).
- The guardrail splitter clamps each of its three depths at zero. A clamp changes nothing on a text exactly when the true
  depth never drops below zero (`Guardrails.ClampIsIdleIff`). That holds of parentheses on every text the finder returns,
  of brackets and braces not on all (`ArgumentListIsBalanced`, `OtherClampsCanAct`).
- Entries named `extensions/` with nothing before the next slash are built in no declaration partition
  (`DeclarationPartitions.EntriesAreBuiltOnceUnlessDropped`, `DroppedIff`).

## Model

| member | source | states |
|---|---|---|
| BoundedOutput.ResolveOutputLimit | scripts/control-ui-i18n.ts:511-517 | the limit in force is at least one, whatever the option is |
| BoundedOutput.AppendHolds | scripts/control-ui-i18n.ts:519-530 | one append keeps: the text is the newest min(total, limit) characters, and kept plus truncated is the total |
| BoundedOutput.CaptureIsNewestTail | scripts/control-ui-i18n.ts:519-530 | after any sequence of chunks the capture is exactly the newest part of their concatenation, and counts the rest |
| BoundedOutput.ChunkBoundariesDoNotMatter | scripts/control-ui-i18n.ts:519-530 | two divisions of the same output into chunks leave the same capture |
| BoundedOutput.ZeroLimitKeepsEverything | scripts/control-ui-i18n.ts:529 | with a limit of zero nothing is ever cut off |
| BoundedOutput.CaptureExactIffPositiveLimit | scripts/control-ui-i18n.ts:519-530 | the capture is exact if and only if the limit is positive or there was no output |
| RunProcess.StartedIsOk | scripts/control-ui-i18n.ts:562-574 | a new run satisfies the invariant |
| RunProcess.ReactKeepsRunOk | scripts/control-ui-i18n.ts:548-760 | every callback keeps the invariant of a run: timers, handlers, settlements, output and the fate of the process group |
| RunProcess.BecomesDoneIff | scripts/control-ui-i18n.ts:622-638 | a run becomes done, and looks at the registry, exactly when its group is gone during a relay or the relay's grace is over |
| RunProcess.SettlesIff | scripts/control-ui-i18n.ts:660-758 | exactly which callbacks settle a run |
| RunProcess.TimeoutLeadsToKill | scripts/control-ui-i18n.ts:704-722 | a timeout does not settle; unless a relay is in charge it leaves a kill timer running |
| RunProcess.RelayStarts | scripts/control-ui-i18n.ts:616-641 | a relay removes the handlers and either is done with a dead group or runs its own timer and no other |
| RunProcess.SettlesAtMostOnce | scripts/control-ui-i18n.ts:660-673 | no callback settles a promise that is settled, or takes a settlement back |
| RunProcess.WhatSettles | scripts/control-ui-i18n.ts:675-758 | an error, and nothing else, rejects as an error; otherwise a run that timed out, and no other, is rejected as timed out, and only when its group is dead or was sent SIGKILL |
| RunProcess.CloseIsFaithful | scripts/control-ui-i18n.ts:675-703 | a close that settles gives exactly what is due: the timeout; else the failure with how the child closed and the newest of both outputs, if failures reject; else a complaint about a successful child whose output was cut; else the exit code, 1 for a child ended by a signal, and the newest of both outputs |
| RunProcess.KillTimerIsFaithful | scripts/control-ui-i18n.ts:675-717 | so does the end of a kill grace, for the close it has waited for |
| RunProcess.DueIsUnique | scripts/control-ui-i18n.ts:675-703 | what is due is one settlement |
| RunProcess.FailureIsReported | scripts/control-ui-i18n.ts:681-702 | a child that did not end with code zero, by a signal for one, never makes a success: it is rejected if failures reject, and else resolves with its code, or 1 |
| RunProcess.ListensIff | scripts/control-ui-i18n.ts:644-649 | a run listens for SIGINT, SIGTERM and SIGHUP until one is relayed or it has settled |
| RunProcess.SettledRunLeavesNothing | scripts/control-ui-i18n.ts:660-674 | after a settlement without a parent signal no timer or handler is left, and later callbacks send nothing |
| RunProcess.ClosedRunIsOneTimerAway | scripts/control-ui-i18n.ts:704-757 | a closed run that is not settled has its kill timer running, and that timer settles it |
| ParentSignals.AlwaysOk | scripts/control-ui-i18n.ts:539-760 | every interleaving of any number of runs keeps the invariant; the registry holds exactly the runs that have not departed |
| ParentSignals.ReraiseIsSafe | scripts/control-ui-i18n.ts:539-546 | a signal is re-raised only when a registered run has recorded it and every registered run has recorded one, sent it on and is done, with its group seen dead or sent SIGKILL, and nothing listens any more |
| ParentSignals.EveryPromiseSettlesOnce | scripts/control-ui-i18n.ts:660-758 | in every interleaving each promise is settled at most once, as timed out only with its group dead or sent SIGKILL, and a run settled without a parent signal has left the registry, its timers and its handlers |
| ParentSignals.EmitRelays | scripts/control-ui-i18n.ts:616-648 | one emission marks every listener with the signal and changes no other run, and if it leaves all registered runs done it has re-raised the signal |
| ParentSignals.RelayIsNeverLost | scripts/control-ui-i18n.ts:616-758 | if no run starts, a relay once begun stays under way until the signal is re-raised; without a signal the registry stays calm |
| ParentSignals.RelayIsRemembered | scripts/control-ui-i18n.ts:616-758 | a relay under way is never forgotten |
| ParentSignals.ReraisedIffNoRelayTimer | scripts/control-ui-i18n.ts:616-643 | during such a relay the signal has been re-raised if and only if no relay timer runs |
| ParentSignals.SignalIsReraised | scripts/control-ui-i18n.ts:539-760 | after any run before the signal and any run without a start after it: if a signal came, a registered run remains, all are signalled, and the signal has been re-raised if and only if no relay timer is left; otherwise no registered run is signalled |
| ParentSignals.TimersReraise | scripts/control-ui-i18n.ts:633-639 | the pending relay timers alone, at most one per unfinished run, bring the re-raise about |
| ParentSignals.ForgottenForGood | scripts/control-ui-i18n.ts:539-760 | once every run a signal reached is done and closed and the signal has not been re-raised, nothing but another signal leads to a re-raise, whatever starts or ends |
| ParentSignals.RememberedCanBeReraised | scripts/control-ui-i18n.ts:539-760 | and until then the runs there are can end in such a way that it is re-raised |
| ParentSignals.ForgottenIff | scripts/control-ui-i18n.ts:539-760 | so that state is exactly the one from which the signal cannot be re-raised |
| ParentSignals.ForgottenExactlyWhen | scripts/control-ui-i18n.ts:622-758 | the steps that lead there are exactly: the last run that could still look has its relay's grace end after its close, or closes with a dead group, while an unsignalled run is registered; or it is done and closes while its killed group still answers |
| ParentSignals.LateStartLosesTheSignal | scripts/control-ui-i18n.ts:586-758 | a run of eight events after which nothing runs, nothing listens and the signal is forgotten |
| PendingPromises.HangsIff | scripts/control-ui-i18n.ts:616-758 | an open promise hangs (relayed, and no kill grace can end behind a close that found the group alive) if and only if in no continuation anything but an error settles it |
| PendingPromises.HangsForGood | scripts/control-ui-i18n.ts:616-758 | and it stays so whatever starts, ends or is signalled |
| PendingPromises.HangsExactlyWhen | scripts/control-ui-i18n.ts:616-758 | the callbacks that make an open promise hang are exactly: a signal after the timeout, unless the group is dead and a kill grace runs; during a relay, the end of such a grace before the close and after the timeout; the timeout while no such grace runs but `waitingForKillGrace` is set; and a close with a dead group |
| PendingPromises.LateStartHangs | scripts/control-ui-i18n.ts:586-758 | in the run that loses the signal the first call never returns |
| ProcessRunner.ParentSignalRegistry.MaybeReraise | scripts/control-ui-i18n.ts:539-546 | the loop over the registry re-raises if and only if all runs in it are signalled and done |
| ProcessRunner.ProcessRun.constructor | scripts/control-ui-i18n.ts:562-574 | a run starts with a record of its own in the registry, unsettled, with its handlers and timeout |
| ProcessRunner.ProcessRun.Settle | scripts/control-ui-i18n.ts:660-674 | the whole effect of settling on the closure and the registry; none if settled |
| ProcessRunner.ProcessRun.ParentSignalReceived | scripts/control-ui-i18n.ts:617-640 | the handler does exactly what the automaton says to the run, the registry and the re-raise |
| ProcessRunner.ProcessRun.KillTimerElapsed | scripts/control-ui-i18n.ts:633-639 | likewise for both kill timers |
| ProcessRunner.ProcessRun.TimeoutElapsed | scripts/control-ui-i18n.ts:718-722 | likewise for the timeout |
| ProcessRunner.ProcessRun.ChildClosed | scripts/control-ui-i18n.ts:739-758 | likewise for the close of the child |
| ProcessRunner.ProcessRun.ChildErrored | scripts/control-ui-i18n.ts:729-733 | likewise for an error |
| ProcessRunner.ProcessRun.StdoutData | scripts/control-ui-i18n.ts:723-725 | likewise for output |
| ProcessRunner.ProcessRun.StderrData | scripts/control-ui-i18n.ts:726-728 | likewise for error output |
| NodeProcess.ParentProcess.Deliver | scripts/control-ui-i18n.ts:616-758 | delivering a callback to one closure moves the objects together as one step of the system of all runs, whatever records the registry holds |
| NodeProcess.ParentProcess.Start | scripts/control-ui-i18n.ts:548-574 | so does a new call |
| NodeProcess.ParentProcess.Emit | scripts/control-ui-i18n.ts:616-648 | so does calling the listeners of a signal one after the other |
| NodeProcess.ParentProcess.Handle | scripts/control-ui-i18n.ts:539-760 | so does every event that can happen |
| NodeProcess.RunProcesses | scripts/control-ui-i18n.ts:539-760 | after any sequence of events the objects are where the system is; a signal they re-raised was recorded by every record in the registry, with every such run done and its group dead or sent SIGKILL, and no closure listens |
| TranslationBatches.BuildTranslationBatches | scripts/control-ui-i18n.ts:806-830 | the batches concatenate to the items, obey both limits (an oversized item stands alone), none is empty, and no order-preserving division has fewer |
| TranslationBatches.TightNeedsNoMore | scripts/control-ui-i18n.ts:812-823 | batches none of which has room for the next item are at most as many as any division's |
| TranslationBatches.GroupedBatchStaysBelowBudget | scripts/control-ui-i18n.ts:493-495 | the running total counts two characters per item more than the estimate of the batch, so several items are grouped if and only if they are at most twenty and the estimate stays that far below the budget |
| TranslateBatch.TranslateItems | scripts/control-ui-i18n.ts:956-1016 | the loop with its recursive halves computes the result of the recursion and issues exactly its prompts |
| TranslateBatch.NothingMissing | scripts/control-ui-i18n.ts:945-951 | no key is reported missing if and only if every item has a non-blank text |
| TranslateBatch.TimeoutIffMentioned | scripts/control-ui-i18n.ts:452-454 | a failure counts as a timeout if and only if `timed out` stands somewhere in its message, in any case of letters |
| TranslateBatch.AcceptedIff | scripts/control-ui-i18n.ts:938-954 | a reply is accepted if and only if it gives every item a non-blank text with the placeholders of the source, the last item of a key deciding; and the translations are those texts, for exactly the batch's keys |
| TranslateBatch.WhyTurnedDown | scripts/control-ui-i18n.ts:940-953 | a reply is turned down for the first item without a usable text, or else for its placeholders |
| TranslateBatch.HalvesCombine | scripts/control-ui-i18n.ts:993-1003 | usable results of two halves make a usable result of the batch |
| TranslateBatch.TranslationIsUsable | scripts/control-ui-i18n.ts:956-1016 | whatever the provider does, a returned map has exactly the batch's keys, non-blank values and matching placeholders |
| TranslateBatch.ValuesAreProvided | scripts/control-ui-i18n.ts:938-1003 | every returned value was given by the provider for that key in an accepted reply to one of the prompts issued, one that showed an item with that key |
| TranslateBatch.PromptsAreAsked | scripts/control-ui-i18n.ts:965-1007 | the prompts issued are as many as are counted, in order; the first shows all items and quotes nothing, and any other quotes nothing or why the reply before it, to the same items, was turned down |
| TranslateBatch.WhatIsAskedNext | scripts/control-ui-i18n.ts:965-1016 | after an accepted reply nothing more is asked; after a timeout the halves, or nothing for a single item; after another failure the same items once more, quoting it if there was a reply; and the last failure is the result |
| TranslateBatch.TimedOutBatchIsHalved | scripts/control-ui-i18n.ts:988-1003 | after a first prompt for several items has timed out, the next one shows exactly the first half and quotes nothing |
| TranslateBatch.PromptsAreBounded | scripts/control-ui-i18n.ts:956-1016 | n items take at least one and at most 4n - 2 prompts, none at most two |
| TranslateBatch.BoundIsReached | scripts/control-ui-i18n.ts:965-1007 | there is a provider for which every batch takes exactly that many prompts, and every non-empty one succeeds |
| Placeholders.PlaceholdersAreExactlyTheBracedNames | scripts/control-ui-i18n-verify.ts:57-61 | a name is extracted if and only if it stands in braces somewhere in the text |
| Text.WordCharsByCode | scripts/control-ui-i18n-verify.ts:57-61 | the characters a name may have, by their codes |
| EntryPartition.FindTarget | tsdown.config.ts:542-549 | the inner loop finds the first partition with the fewest entries |
| EntryPartition.PartitionUnifiedEntryGroups | tsdown.config.ts:536-557 | the loops build the greedy placement; they fail exactly when there are groups and no partitions |
| EntryPartition.GroupsStayWhole | tsdown.config.ts:554 | a partition is the groups placed in it, whole and in order |
| EntryPartition.EntriesAreConserved | tsdown.config.ts:540-556 | the partitions hold every entry exactly as often as the groups |
| EntryPartition.GreedyIsBalanced | tsdown.config.ts:540-556 | two partitions differ by at most the largest group, and none is far above the average |
| EntryPartition.GreedyIsWithinGrahamsBound | tsdown.config.ts:540-556 | k times any partition is at most 2k - 1 times the largest partition of any other placement of the same groups |
| EntryPartition.GrahamsBoundIsMet | tsdown.config.ts:540-556 | for every k there are groups for which that bound is met with equality |
| DeclarationPartitions.CollectExtensions | tsdown.config.ts:574-587 | the table holds, for every named extension, its entries in order |
| DeclarationPartitions.BuildUnifiedDeclarationPartitions | tsdown.config.ts:564-614 | there are always eight partitions: base, the two kinds of plugin SDK entries, and the greedy partition of the extensions |
| DeclarationPartitions.EntriesAreBuiltOnceUnlessDropped | tsdown.config.ts:564-614 | the partitions hold every entry exactly once, except those with an empty extension id |
| DeclarationPartitions.DroppedIff | tsdown.config.ts:580-583 | those are exactly the names `extensions/` and `extensions//...` |
| DeclarationPartitions.ExtensionOf | tsdown.config.ts:576-583 | every other name below `extensions/` belongs to an extension |
| DeclarationPartitions.FixedBuildsIff | tsdown.config.ts:570-595 | the first three partitions hold exactly the names without either prefix, those of the plugin SDK that are public, and those that are not |
| DeclarationPartitions.ExtensionsStayTogether | tsdown.config.ts:574-602 | for every id, the entries named `extensions/id` or below it are in one of the last five partitions and in no other |
| JsonEnvelope.FindObjectEnd | scripts/code-mode-model-matrix.ts:792-818 | the loop finds the cut of the scan |
| JsonEnvelope.ParseAgentExecOutput | scripts/code-mode-model-matrix.ts:781-820 | which of the three failures, or which envelope and trailing text, comes out |
| JsonEnvelope.JsonPasses | scripts/code-mode-model-matrix.ts:795-818 | the scan passes over every serialized JSON value without stopping, whatever follows |
| JsonEnvelope.ObjectIsCutExactly | scripts/code-mode-model-matrix.ts:795-818 | every serialization of every JSON object is cut exactly at its end, whatever follows |
| JsonEnvelope.EnvelopeRoundTrip | scripts/code-mode-model-matrix.ts:785-815 | after any white space the envelope is the serialization and the trailing text is what follows, trimmed |
| JsonEnvelope.WhatIsRejected | scripts/code-mode-model-matrix.ts:785-792 | there is no envelope exactly if there is only white space, and something else exactly if no brace follows the white space |
| JsonEnvelope.TruncatedObjectIsIncomplete | scripts/code-mode-model-matrix.ts:819 | every non-empty proper prefix of a serialized object is reported as incomplete |
| AndroidEscape.EscapeIsEncode | scripts/android-app-i18n.ts:251-260 | the seven replacements amount to writing each character by one table |
| AndroidEscape.EscapedIsSafe | scripts/android-app-i18n.ts:251-260 | nothing special is left in an escaped text: every backslash escapes what follows, every ampersand begins an entity, and there is no bare quote, angle bracket or line feed |
| AndroidEscape.DecodeOfEscape | scripts/android-app-i18n.ts:127-137 | the eight replacements undo that, except that an n after a backslash becomes a line feed |
| AndroidEscape.CorruptedAt | scripts/android-app-i18n.ts:133-136 | position by position, what such a value decodes to |
| AndroidEscape.RoundTripIffNoBackslashN | scripts/android-app-i18n.ts:139-144 | decoding the quoted escaped value gives the value if and only if it has no backslash before an n |
| KotlinInterpolation.ReadKotlinInterpolations | scripts/android-app-i18n.ts:152-202 | the loops compute the recursive scan, or nothing when a brace is not closed |
| KotlinInterpolation.BracedInterpolationEndsAtItsMate | scripts/android-app-i18n.ts:173-199 | an interpolation in braces ends at the mate of its opening brace, and is unbalanced exactly when there is none |
| KotlinInterpolation.WrittenInterpolationIsFound | scripts/android-app-i18n.ts:152-202 | behind any text whose own interpolations are closed, every expression of code, quoted literals and nested braces between `${` and `}` is scanned whole, after exactly that text's interpolations and before those of what follows |
| KotlinInterpolation.NamedInterpolationIsFound | scripts/android-app-i18n.ts:158-172 | so is every `$` with a name that no word character follows |
| KotlinInterpolation.ExactlyTheInterpolations | scripts/android-app-i18n.ts:154-200 | every span is a dollar sign with the longest name or with the braces up to their mate, and every dollar sign before a brace or a name is in a span |
| KotlinInterpolation.GivenUpIff | scripts/android-app-i18n.ts:174-199 | the text is given up if and only if some opening brace without a mate stands behind a text whose own interpolations are closed |
| KotlinInterpolation.ScanIsOrdered | scripts/android-app-i18n.ts:154-200 | the spans are ordered, disjoint and inside the text |
| KotlinInterpolation.SpansReassembleTheSource | scripts/android-app-i18n.ts:154-201 | the tokens and the gaps between them make up the text |
| KotlinInterpolation.TokenScansAsItself | scripts/android-app-i18n.ts:162-195 | a token scanned on its own is found as that token |
| AndroidRender.TokenCounts | scripts/android-app-i18n.ts:215-221 | the counts are the multiplicities of the tokens |
| AndroidRender.EqualCountsMeanSameTokens | scripts/android-app-i18n.ts:222 | comparing the counts compares the tokens as multisets |
| AndroidRender.SourceIndices | scripts/android-app-i18n.ts:228-233 | the table gives every token its positions in the source, ascending |
| AndroidRender.ArgumentsAreAPermutation | scripts/android-app-i18n.ts:238-243 | the argument numbers used are a permutation of 1 to n that keeps the order of equal tokens |
| AndroidRender.RenderedIff | scripts/android-app-i18n.ts:208-225 | a pair of texts is rendered if and only if both can be read and have the same interpolations as often, and which failure it is otherwise |
| AndroidRender.RenderPositional | scripts/android-app-i18n.ts:234-246 | the loop writes the gaps with doubled percent signs and the right argument for every token |
| AndroidRender.RenderAndroidResourceValue | scripts/android-app-i18n.ts:204-249 | the result is the escaped positional text, or one of the two failures |
| AndroidRender.RenderingPreservesMeaning | scripts/android-app-i18n.ts:204-249 | formatting the text before escaping with the source's tokens as arguments gives exactly the translation |
| AndroidRender.PlainTextIsWritten | scripts/android-app-i18n.ts:226-249 | without interpolations the text is written as it is, and comes back unless it has a backslash before an n |
| AndroidRender.ResourceShowsTheTranslation | scripts/android-app-i18n.ts:1193 | so does formatting the resource as `decodeAndroidResourceValue` decodes it, if and only if no gap has a backslash before an n |
| Delimiters.FindClosingDelimiter | scripts/android-app-i18n.ts:596-632 | the first position at which a closing delimiter outside string literals brings the depth to zero, or none |
| Delimiters.FirstCloseIffMate | scripts/android-app-i18n.ts:602-631 | from an opening delimiter the loop stops at k if and only if k is its mate: the text between closes every literal and delimiter it opens and no other |
| Delimiters.SplitTopLevelSegments | scripts/android-app-i18n.ts:691-759 | the segments lie end to end with one comma between them, end exactly at the top-level commas, and are the pieces of the range |
| Delimiters.PiecesAreTheOnlyList | scripts/android-app-i18n.ts:691-759 | a text is the comma-join of exactly one list of pieces without top-level commas that end at top level |
| Delimiters.UntrackedCutIff | scripts/android-app-i18n.ts:730-756 | without type arguments a comma separates exactly when it is outside literals and all three kinds of delimiters |
| Delimiters.SegmentIsTracked | scripts/android-app-i18n.ts:722-746 | within a segment the two tracked variables say whether a default value has begun and, until then, how deep in angle brackets the text is, never below zero |
| Delimiters.TrackedCutIff | scripts/android-app-i18n.ts:722-756 | with type arguments a comma separates exactly when it is outside literals and delimiters, and outside angle brackets unless the segment's default value has begun |
| Delimiters.ArgumentListIsBalanced | scripts/android-app-i18n.ts:906-912 | in the text up to the mate, the splitter's parenthesis depth is never negative, and every piece ends outside strings at depth zero |
| BalancedText.BalancedIffWritten | scripts/android-app-i18n.ts:602-631 | a text is balanced by the scan's counting if and only if it can be written as code characters, string literals with escapes and nested groups |
| BalancedText.BodyIsClosedByItsMate | scripts/check-temp-path-guardrails.ts:74-97 | behind every such text the closing delimiter is the mate of the opening one, whatever stands around them |
| BalancedText.MateIsUnique | scripts/check-temp-path-guardrails.ts:74-97 | an opening delimiter has at most one mate |
| TopLevelSplit.SplitIsAList | scripts/android-app-i18n.ts:705-757 | splitting loses nothing, leaves no top-level comma in a piece, and restarts the scan behind each comma |
| TopLevelSplit.SplitIsTheOnlyList | scripts/check-temp-path-guardrails.ts:99-163 | splitting inverts joining, for any scanner that is fresh after a top-level comma |
| Guardrails.QuoteScanState.BeginQuotedSection | scripts/check-temp-path-guardrails.ts:48-54 | starts a quotation exactly at one of the three quotes |
| Guardrails.QuoteScanState.ConsumeQuotedChar | scripts/check-temp-path-guardrails.ts:56-72 | consumes exactly the characters inside a quotation, with escapes, up to the same quote |
| Guardrails.FindMatchingParen | scripts/check-temp-path-guardrails.ts:74-97 | the result is the position that encloses a balanced text, or -1 if there is none |
| Guardrails.SplitTopLevelArguments | scripts/check-temp-path-guardrails.ts:99-163 | the arguments are the trimmed pieces, without a blank last one |
| Guardrails.TrailingCommaAddsNothing | scripts/check-temp-path-guardrails.ts:157-162 | a comma behind the last argument, and white space behind it, add no argument |
| Guardrails.PiecesAreTheOnlyList | scripts/check-temp-path-guardrails.ts:99-163 | the pieces are the one list of pieces that stay apart and join to the text |
| Guardrails.DepthsAreClamped | scripts/check-temp-path-guardrails.ts:116-151 | each of the three clamped depths is the true depth minus the least depth so far, and the quote state is the finder's |
| Guardrails.CutIff | scripts/check-temp-path-guardrails.ts:152-156 | a comma separates exactly when it is outside quotes and every depth is the least so far |
| Guardrails.ClampIsIdleIff | scripts/check-temp-path-guardrails.ts:116-151 | for each of the three kinds of delimiters, the clamped depth is the true depth throughout if and only if the true depth never drops below zero |
| Guardrails.ArgumentListIsBalanced | scripts/check-temp-path-guardrails.ts:181-193 | on the text the finder returns the clamp never acts, and every argument ends outside quotes at depth zero |
| Guardrails.OtherClampsCanAct | scripts/check-temp-path-guardrails.ts:133-151 | texts the finder returns on which the clamps on brackets and on braces act |
| OutputReservation.ReserveCodeModeMatrixOutputDir | scripts/code-mode-model-matrix.ts:475-524 | given the answers of its system calls, the loops end as one reserver of the protocol does, after as many calls |
| OutputReservation.PassSegment | scripts/code-mode-model-matrix.ts:493-521 | the inner loop passes one segment or ends the call |
| OutputReservation.AlwaysOk | scripts/code-mode-model-matrix.ts:475-524 | every interleaving of reservers and other programs keeps the invariant |
| OutputReservation.ReservationIsExclusive | scripts/code-mode-model-matrix.ts:475-524 | at most one call reserves a path; it created that directory itself, and everything above it is a real directory |
| OutputReservation.StepsAreBounded | scripts/code-mode-model-matrix.ts:491-522 | a call takes at most three system calls per segment, whatever the others do |
| OutputReservation.RefusalsAreTrue | scripts/code-mode-model-matrix.ts:475-518 | in every interleaving a refusal names what is so: a target outside the root, a symlink on the way, an existing target, a parent that is no directory; and a system error only if a system call failed |
| OutputReservation.SomebodyWins | scripts/code-mode-model-matrix.ts:495-520 | when calls contend for a free path, none is turned away before one has succeeded |
| TranslationChoice.ChooseTranslation | scripts/apple-app-i18n.ts:634-647 | the result is the first distinct candidate in the order source last, most frequent, smallest |
| TranslationChoice.SelectDeterministicTranslation | scripts/android-app-i18n.ts:1053-1068 | the result is the first candidate other than the source in the order most frequent, smallest |
| TranslationChoice.BeforeIsTotalOrder | scripts/apple-app-i18n.ts:642-645 | the comparison is a strict total order on the distinct candidates |
| TranslationChoice.FirstIsUnique | scripts/apple-app-i18n.ts:641-646 | so there is one first candidate |
| TranslationChoice.ChoicesAgree | scripts/apple-app-i18n.ts:634-647 | the two rules pick the same value if and only if there is a candidate or the source is empty |
| TranslationChoice.WhatIsChosen | scripts/apple-app-i18n.ts:641-646 | the choice is the source only if nothing else is offered, and otherwise the most frequent of the other values, the smallest of those |
| TranslationChoice.ChoiceIgnoresOrder | scripts/apple-app-i18n.ts:634-647 | permuting the candidates changes nothing |
| AppleCatalog.CollectIds | scripts/apple-app-i18n.ts:655-667 | the table of the ids of every live source |
| AppleCatalog.GroupArtifact | scripts/apple-app-i18n.ts:671-684 | the table of the candidates of every live source in one artifact |
| AppleCatalog.BuildAppleCatalog | scripts/apple-app-i18n.ts:649-736 | the loops build the catalogue and the contradictions of the merge |
| AppleCatalog.CandidateIff | scripts/apple-app-i18n.ts:655-684 | a value is a candidate if and only if an entry of the locale's last artifact translates the source by it under the id of an included native entry with the same text |
| AppleCatalog.CandidatesAreVotes | scripts/apple-app-i18n.ts:671-682 | and it is a candidate as often as there are such entries |
| AppleCatalog.WhatIsBuilt | scripts/apple-app-i18n.ts:691-720 | the unit of every live source in every required locale, from the entries alone: the shipped one; in English the source; the source as new if no entry translates it otherwise; else the other text most entries give, as translated |
| AppleCatalog.AgreedTranslationIsBuilt | scripts/apple-app-i18n.ts:676-720 | so a translation all its entries agree on is taken |
| AppleCatalog.BuiltIff | scripts/apple-app-i18n.ts:691-722 | the catalogue has exactly the live sources, each in exactly the required locales |
| AppleCatalog.ContradictionIff | scripts/apple-app-i18n.ts:691-699 | a contradiction names a live source, a required locale and all of the texts its entries give there, if these are more than one |
| AppleCatalog.BuiltUnit | scripts/apple-app-i18n.ts:691-722 | every live source has in every required locale exactly the unit its existing unit and candidates determine |
| AppleCatalog.WhatAUnitSays | scripts/apple-app-i18n.ts:700-720 | the same for one unit and any list of candidates |
| AppleCatalog.ContradictionsAreTheDisagreements | scripts/apple-app-i18n.ts:691-699 | so one is reported exactly where two entries give a live source different texts in a required locale |
| AppleCatalog.BuildIsAFixpoint | scripts/apple-app-i18n.ts:918-932 | building again from a built catalogue with the same inputs gives that catalogue |
| AppleCatalog.ShippedTranslationSurvives | scripts/apple-app-i18n.ts:700-704 | an existing non-empty translated unit of a source that stays live survives every later build, whatever the artifacts say |
| AppleCatalog.BuildIgnoresOrder | scripts/apple-app-i18n.ts:649-736 | permuting source entries and artifact entries changes neither catalogue nor contradictions |
| AppleCatalog.ArtifactOrderDoesNotMatter | scripts/apple-app-i18n.ts:669-687 | nor does permuting artifacts of distinct locales |
| PatternMatch.Matches | scripts/check-policy-config-coverage.ts:209-232 | the recursion with its search loop decides the match |
| PatternMatch.MatchesIffAligned | scripts/check-policy-config-coverage.ts:209-232 | a value matches if and only if it falls into consecutive pieces, one for every part of the pattern |
| PatternMatch.MatchesConcatenation | scripts/check-policy-config-coverage.ts:209-232 | a concatenation of patterns matches exactly the concatenations of what they match |
| PatternMatch.MatchingTellsContainment | scripts/check-policy-config-coverage.ts:75-82 | for a pattern without `**`, being matched as a path is the same as having all its paths matched |
| PatternMatch.PatternStandsForItsPathsIff | scripts/check-policy-config-coverage.ts:75-82 | every pattern that matches q as a path contains q's paths if and only if q has no `**` |
| PatternMatch.DoubleStarIsOnlyText | scripts/check-policy-config-coverage.ts:79-81 | the shortest pair for which it fails; in every such pair both patterns have a segment |
| PatternMatch.SplitIff | scripts/check-policy-config-coverage.ts:203-207 | a path is split into the one list of parts without dots that is joined to it by dots |
| PatternMatch.ClassifyIff | scripts/check-policy-config-coverage.ts:86-92 | a path gets the first classification whose pattern it matches |
| PatternMatch.FuturePathsAreClassified | scripts/check-policy-config-coverage.ts:75-92 | if a monitored pattern without `**` has no schema path and is not reported, every path it may match later is classified |
| CatalogAnalysis.AnalyzeControlUiCatalogs | scripts/control-ui-i18n-verify.ts:84-133 | the loops report the errors locale by locale, and the table of fallbacks gives every source key the locales without it |
| CatalogAnalysis.AllErrorsIff | scripts/control-ui-i18n-verify.ts:97-121 | the errors are exactly these: the keys of a locale that the source lacks, in order; that two common keys have changed places; and each common key whose texts have different placeholders |
| CatalogAnalysis.FallbacksInOrder | scripts/control-ui-i18n-verify.ts:110-114 | the fallbacks of a key come in the order of the locales |
| CatalogAnalysis.LocaleIsCleanIffItLinesUp | scripts/control-ui-i18n-verify.ts:96-121 | a locale has no error if and only if its keys are the source keys it has, in the source's order, with the same placeholders |
| CatalogAnalysis.NoErrorsIffAllLineUp | scripts/control-ui-i18n-verify.ts:93-123 | there is no error if and only if that holds of every locale |
| CatalogAnalysis.CleanLocaleIsSourceMinusFallbacks | scripts/control-ui-i18n-verify.ts:93-132 | without errors each locale's key sequence is the source's with the locale's reported fallbacks removed |
| CatalogAnalysis.FallbacksAndEntriesAddUp | scripts/control-ui-i18n-verify.ts:93-132 | without errors fallback pairs and present entries total source keys times locales |
| RestartProbe.WaitForRestartProbe | scripts/bench-gateway-restart.ts:495-580 | for every trace of attempts and stop flags, what each field of the result means in terms of the attempts made |
| RestartProbe.ChangePointsAreExactlyTheChanges | scripts/bench-gateway-restart.ts:532-547 | transitions are the run-length compression of the observed states |
| RestartProbe.TransitionsAreTheChanges | scripts/bench-gateway-restart.ts:533-538 | each of them is given with its time, its status and its error kind, if that says anything |
| RestartProbe.FirstErrorKindIs | scripts/bench-gateway-restart.ts:548-550 | the error kind reported is that of the first attempt whose error kind says anything |
| RestartProbe.RecoveryIsLast | scripts/bench-gateway-restart.ts:557-569 | the first 200 after another answer is the last attempt |
| RestartProbe.StopsOnlyWithReason | scripts/bench-gateway-restart.ts:513-569 | before the deadline the loop ends exactly when it must: the process is gone, the caller is satisfied and the server was never down, or it recovered |
| RestartProbe.TimeIsReportedIff | scripts/bench-gateway-restart.ts:557-579 | a time is reported if and only if the server recovered, or answered and was never down |

## Left out

- Spawning, signals, sockets, HTTP, files and clocks: the answers they give are parameters, and which callback comes next is any.
- Windows: `taskkill`, the two-signal list, and path separators in `reserveCodeModeMatrixOutputDir`.
- A second, different parent signal while one is relayed: the handlers are removed by the first, and what Node then does to the process is not part of this model.
- Progress messages, delays and client resets of `translateBatch`; they change neither result nor number of prompts.
- `JSON.parse`, and the property names it treats specially, such as `__proto__`.
- Characters: a string is a sequence of characters that stand for UTF-16 code units; lower-casing is ASCII only, used to find one ASCII phrase.
- ProcessRunner.ProcessRun.constructor: the child, its handlers and its timers are a record of what the event loop holds, and the effects on the outside a log.
- TranslationBatches.BuildTranslationBatches: the budget is an integer parameter, where the source reads a number from the environment.
- TranslateBatch.TranslateItems: the wording of a placeholder mismatch is chosen by the provider, since only whether it mentions a timeout matters.
- OutputReservation.ReserveCodeModeMatrixOutputDir: the target is its list of segments below the root, so resolving paths and case-insensitive file systems are not modelled; entries are only added.
- JsonEnvelope.ParseAgentExecOutput: the envelope is the text handed to `JSON.parse`; numbers and literals are any text of the characters they are made of, which is more than JSON allows.
- AndroidRender.RenderingPreservesMeaning: the formatter knows `%%` and `%k$s` only, the two forms the code writes.
- AppleCatalog.BuildAppleCatalog: `includesEntry` and `appleCatalogValue` are arbitrary functions, a string unit is its state and value, and the contradictions are a set, which determines the sorted list.
- CatalogAnalysis.AnalyzeControlUiCatalogs: the locales come in the order of `localeCompare`, and an error is its kind, locale and key instead of its text.
- DeclarationPartitions.BuildUnifiedDeclarationPartitions: the sorted order of the extension ids is a parameter, and source paths are not normalised.
- RestartProbe.WaitForRestartProbe: the benchmark events, which repeat the transitions, are not recorded.
- `flattenControlUiCatalog`, `buildCells`, `summarizeResults`, `summarizeCase` and `hasBenchmarkFailures`: short recursions and sums, not modelled.
- `expressionEnd` and the other regex-driven lint rules for Kotlin and Swift literals, and the allow-lists.
