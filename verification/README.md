# Verified model of Dline's shared algorithms and protocols

Dline's shared code holds a set of self-contained algorithms and small protocols whose promises span many calls:
tool results that never exceed a byte budget, provider attempts that are reported exactly once, token figures split
into whole parts, native MCP function names that always lead back to their tool, transcript projections, an inline
Markdown parser, a descendant-first kill order, a request-sharing cache, and checkpoint reference sets. This project
models them in Dafny and proves those promises for all inputs and all runs.

Run `dafny verify dfyconfig.toml` in this directory.

## How it is organised

| file | what it models |
|---|---|
| `Utf16.dfy`, `Utf8Slice.dfy`, `SizeLabels.dfy`, `ContentLimits.dfy` | byte-budgeted tool output (`src/shared/content-limits.ts`) |
| `SseDone.dfy`, `SseChunking.dfy`, `ProviderAttempt.dfy` | the `[DONE]` detector and what chunking does to it, the observed response body as a state machine and the class that takes its steps, the observed iterator as a class (`src/shared/provider-attempt-observer.ts`) |
| `ContextWindow.dfy` | largest-remainder apportionment (`src/shared/context-window-indicator.ts`) |
| `McpNames.dfy`, `McpRegistry.dfy` | native MCP function names (`src/shared/mcp-native-name.ts`) and the registry of their server keys (`src/services/mcp/McpHub.ts`) |
| `Transcript.dfy`, `ErrorRetry.dfy`, `ApiRequests.dfy`, `HookSequences.dfy`, `CommandSequences.dfy` | the transcript projections |
| `WhatsNew.dfy` | the inline Markdown parser of `webview-ui/vite-whats-new.ts` |
| `ProcessTree.dfy`, `AccountUsage.dfy`, `Checkpoints.dfy` | process order, account-usage cache, checkpoint references |
| `JsText.dfy`, `Options.dfy` | shared string operations and the optional value |

Loops of the source are methods proved against specification functions; what the source promises is then proved about
those functions. Modelling choices:

- Tool output and MCP names are sequences of UTF-16 code units, surrogates included, paired or not. Byte counts follow
  section 3 of RFC 3629, surrogate pairs section 2 of RFC 2781; a lone surrogate counts three bytes. Other texts are
  Dafny strings.
- `toFixed(1)` is exact: the quotient by a power of two is exact in a double, and a tie rounds up. The floor of
  `bodyBudget * 0.4` is the integer quotient `2 * bodyBudget / 5`, which is what the double product gives below 2^50.
- Token shares are exact integer quotients and remainders where the code uses doubles.
- SHA-256 is any function to 64 hexadecimal digits. JSON parsing and printing, path normalisation and the reading of a
  legacy command row are function parameters, with the law, where one is needed, that a field that was set reads back.
- Observer callbacks do not throw.
- Clock readings, loader results, stream reads, errors and abort signals are parameters of the steps that use them.

Findings about the code:

- The byte bound of `boundToolText` needs no assumption on `maxLineBytes`: whenever the body is cut, its budget is
  below the size of the original body, so the label of the kept part always fits the reserved label. `TrailerSurvives`
  says exactly when a trailer that fits is kept; `HalfPairTrailerIsLost` shows one that is not.
- The `[DONE]` detector normalises its whole buffer again with each chunk, so a run of CRs before LF may lose any number of
  them. Every chunking of a text finds `[DONE]` exactly when the text normalised once has it, and some chunking does
  exactly when the text has it with all such CRs dropped; the answer is independent of the chunks exactly when the two
  agree (`IndependentExactly`). They do for every text without CR CR LF, in particular when each CR is followed by LF;
  `CrCrLfDependsOnChunking` shows texts for which they do not.
- While a server key is not deleted, an answer of the registry is that key exactly for the same server
  (`KeysTellServersApart`). A key deleted when a transport fails may be handed to another server: `TwoServersOneKey` gives
  two. `SameKeyExactly` says, for every run, exactly when a later answer is an earlier key.
- A tool segment leads back to its tool exactly when nothing else claims the segment first (`SegmentResolves`); a tool named
  as another's hashed segment does claim it (`NameOfHashWins`).
- A governed API failure can be presented nowhere: an exhausted retry card silences the request row, and a later retry row
  drops that card (`ExplainedNowhere`; `ExplainedNowhereExactly` gives the condition).
- `checkpointReferenceSetsEqual` is neither symmetric nor transitive when hashes may be empty (`EmptyHashIsNotSymmetric`,
  `EmptyHashIsNotTransitive`); `EqualityTurnsRound` and `EqualityChains` say exactly when it can be turned round or chained.

## Model

| member | source | states |
|---|---|---|
| Utf16.ByteLengthIsUtf8 | src/shared/content-limits.ts:167-169 | the byte length is the number of bytes of the text encoded by the table of RFC 3629, a lone surrogate as U+FFFD |
| Utf16.Utf8ReadsBack | src/shared/content-limits.ts:167-169 | that encoding reads back |
| Utf16.ConcatBytes | src/shared/content-limits.ts:167-169 | bytes of two joined texts add up, except that two bytes go where a surrogate pair comes together |
| Utf16.PrefixBytesIncrease | src/shared/content-limits.ts:204-217 | longer prefixes take strictly more bytes, the fact the binary search rests on |
| Utf16.SuffixBytesIncrease | src/shared/content-limits.ts:186-199 | the same for suffixes |
| Utf8Slice.SliceUtf8ToByteLimit | src/shared/content-limits.ts:204-222 | the binary search finds the longest prefix within the limit, less a high surrogate at its end |
| Utf8Slice.SliceUtf8FromEnd | src/shared/content-limits.ts:186-202 | the binary search finds the longest suffix within the limit, less a low surrogate at its start |
| Utf8Slice.PrefixCut | src/shared/content-limits.ts:204-222 | on any text the cut is a prefix within the limit, at most one unit short of the longest, and splits no pair |
| Utf8Slice.SuffixCut | src/shared/content-limits.ts:186-202 | on any text the cut is a suffix within the limit, at most one unit short of the longest, and splits no pair |
| Utf8Slice.LongestWellFormedPrefix | src/shared/content-limits.ts:204-222 | on well-formed text the cut is well-formed and no longer well-formed prefix fits |
| Utf8Slice.LongestWellFormedSuffix | src/shared/content-limits.ts:186-202 | on well-formed text the cut is well-formed and no longer well-formed suffix fits |
| SizeLabels.TenthsAreNearest | src/shared/content-limits.ts:24-27 | the shown tenths are nearest to the exact size |
| SizeLabels.DecimalReadsBack | src/shared/content-limits.ts:20-28 | the digits of a label denote the number they were made of |
| SizeLabels.LabelReadsBack | src/shared/content-limits.ts:20-28 | a label read back: whole bytes below 1024, else KB or from 1 MiB on MB with one decimal, within a twentieth of the unit, a tie upwards |
| SizeLabels.KeptLabelFits | src/shared/content-limits.ts:121-124 | the label the notice is sized with is at least as wide as that of any kept part, although width is not monotone in size |
| ContentLimits.JoinPartsIsBeside | src/shared/content-limits.ts:163-165 | joining the non-empty parts of a list is joining them pairwise, with one newline between neighbours |
| ContentLimits.WholeLinesKept | src/shared/content-limits.ts:175-178 | what stays of a slice ends just before its last line break when that is in its second half, else it is the slice |
| ContentLimits.WholeTailLinesKept | src/shared/content-limits.ts:181-184 | what stays of a tail slice starts just behind its first line break when that is in its first half, else it is the slice |
| ContentLimits.CapsOnlyLongLines | src/shared/content-limits.ts:151-161 | text without a long line is not touched |
| ContentLimits.CapsEachLine | src/shared/content-limits.ts:151-161 | each line is capped on its own, in its place |
| ContentLimits.CappedLineStart | src/shared/content-limits.ts:154-159 | a capped line keeps a start within the limit and states the bytes it leaves out |
| ContentLimits.KeptWithin | src/shared/content-limits.ts:129-136 | prefix and suffix kept stay within the body budget together, and the head within its share |
| ContentLimits.FitFrameWithin | src/shared/content-limits.ts:143-148 | the frame alone never exceeds the budget |
| ContentLimits.FrameKeepsTrailer | src/shared/content-limits.ts:139-148 | the trailer gives way last: it ends the fallback unless it fits exactly and starts with half a pair |
| ContentLimits.StaysWithinBudget | src/shared/content-limits.ts:106-137 | for all parts, strategies, hints and limits the result takes at most the budget in bytes |
| ContentLimits.WholeWhenItFits | src/shared/content-limits.ts:106-111 | when header, body and trailer fit the budget together, the result is just that |
| ContentLimits.CappedWhenThatFits | src/shared/content-limits.ts:113-115 | when only the body with its long lines capped fits, the result is that |
| ContentLimits.FramePartShown | src/shared/content-limits.ts:108-109 | a header or trailer is shown whole up to 4 KiB, else a prefix of it that fits |
| ContentLimits.FrameTakes | src/shared/content-limits.ts:119-125 | what is reserved for the frame: the parts, the notice with the widest label, two newlines |
| ContentLimits.FrameWhenNoBodyFits | src/shared/content-limits.ts:143-148 | when no body fits: as much of the header as fits beside a notice of nothing kept and the trailer, else the end of those two |
| ContentLimits.NoticeText | src/shared/content-limits.ts:117-118 | what a notice says: the bytes kept, the size of the body, the hint |
| ContentLimits.CutResultShape | src/shared/content-limits.ts:113-137 | a cut result is header, prefix, notice with exactly the bytes kept, suffix and trailer, and what it omits is not empty |
| ContentLimits.TrailerSurvives | src/shared/content-limits.ts:79-80 | a trailer that fits the budget ends the result, except exactly in the stated case |
| ContentLimits.HalfPairTrailerIsLost | src/shared/content-limits.ts:143-148 | that case happens: a lone low surrogate as the trailer, at a budget of its three bytes, gives way to a header |
| ContentLimits.TruncateContentWithin | src/shared/content-limits.ts:38-56 | truncated content is within its limit, marker included |
| ContentLimits.TruncatedShape | src/shared/content-limits.ts:38-56 | content within the limit stays; cut content is a prefix, as long as fits, and the notice |
| ContentLimits.MarkerText | src/shared/content-limits.ts:49 | that notice states the size of the content and the limit |
| ContentLimits.TruncateContentIdempotent | src/shared/content-limits.ts:38-56 | truncating twice equals truncating once |
| ContentLimits.TruncateContentWellFormed | src/shared/content-limits.ts:38-56 | truncation never leaves half a surrogate pair |
| SseDone.SseDoneDetector.Observe | src/shared/provider-attempt-observer.ts:303-331 | the loop over the buffer takes finished events until one is `[DONE]`; nothing happens for other content types |
| SseDone.DrainFindsDone | src/shared/provider-attempt-observer.ts:316-328 | taking events one by one finds `[DONE]` exactly when some finished event of the text is |
| SseChunking.DoneExactly | src/shared/provider-attempt-observer.ts:319-325 | exactly the `[DONE]` events: one line is `data:`, white space and `[DONE]`, and no other line holds data |
| SseChunking.BlanksBeforeDone | src/shared/provider-attempt-observer.ts:322 | any white space but a line end may stand before `[DONE]` |
| JsText.JoinInvertsSplit | src/shared/provider-attempt-observer.ts:320-323 | the parts of a split text joined again are the text |
| JsText.TrimStartTakesBlanks | src/shared/provider-attempt-observer.ts:322 | trimming takes the white space at the start and nothing else |
| JsText.SpacesAre | src/shared/provider-attempt-observer.ts:322 | which characters are white space |
| SseDone.NormalisesInStepsExactly | src/shared/provider-attempt-observer.ts:312-314 | normalising buffer and chunk equals normalising the whole text, wherever it is cut, exactly for texts without CR CR LF |
| SseDone.DoneIsFinal | src/shared/provider-attempt-observer.ts:312-332 | done never reverts |
| SseChunking.RunLosesNothing | src/shared/provider-attempt-observer.ts:314-325 | dropping a CR before LF never loses a finished `[DONE]` event, though it may end events earlier |
| SseChunking.NormalisedIsFound | src/shared/provider-attempt-observer.ts:312-330 | what the text normalised once holds is found by some chunk or still in the buffer, in every chunking |
| SseChunking.OnlyCollapsedIsFound | src/shared/provider-attempt-observer.ts:312-330 | nothing is ever found that the text with all CRs before LF dropped does not hold |
| SseChunking.CollapsedIsReached | src/shared/provider-attempt-observer.ts:312-330 | a chunking that finds all that text holds |
| SseChunking.EveryChunkingFindsDone | src/shared/provider-attempt-observer.ts:303-333 | every chunking finds `[DONE]` exactly when the normalised text has a finished `[DONE]` event |
| SseChunking.SomeChunkingFindsDone | src/shared/provider-attempt-observer.ts:303-333 | some chunking does exactly when the text without CRs before LF has one |
| SseChunking.IndependentExactly | src/shared/provider-attempt-observer.ts:303-333 | exactly when the answer for a text is independent of its chunking |
| SseChunking.DoneIndependentOfChunking | src/shared/provider-attempt-observer.ts:303-333 | for every cut of a text without CR CR LF, done exactly when the whole normalised text has a finished `[DONE]` event |
| SseChunking.CrCrLfDependsOnChunking | src/shared/provider-attempt-observer.ts:313-314 | with CR CR LF behind any `[DONE]` event the answer depends on the chunking |
| ObservedResponse.FinishesOnce | src/shared/provider-attempt-observer.ts:260-295 | in every run the attempt is finished at most once, and exactly once when the run has ended |
| ObservedResponse.FirstTerminalStands | src/shared/provider-attempt-observer.ts:263-267 | the first status reported stands, whatever continues afterwards |
| ObservedResponse.CancelDecides | src/shared/provider-attempt-observer.ts:287-294 | a cancel that begins before settlement decides the status in every continuation, late reads included: by the abort signal, else by its reason, else by whether `[DONE]` was seen |
| ObservedResponse.BodyEndDecides | src/shared/provider-attempt-observer.ts:272-278 | a body that ends reports the abort signal, else whether the response was ok |
| ObservedResponse.ReadErrorDecides | src/shared/provider-attempt-observer.ts:282-285 | a failed read reports the classified error |
| ObservedResponse.StreamEndsAsBody | src/shared/provider-attempt-observer.ts:277-285 | after the report the consumer's stream is closed at the body's end and failed after a failed read |
| ObservedResponse.StopAfterDoneCompletes | src/shared/provider-attempt-observer.ts:357-364 | a consumer that stops an event stream completed the attempt when the text read so far, normalised, has a finished `[DONE]` event, and only when it has one without CRs before LF |
| ObservedResponse.StopAfterDoneLine | src/shared/provider-attempt-observer.ts:320-323 | in particular after `data: [DONE]`, with any white space before `[DONE]`, in any chunking |
| ObservedResponse.ObservedBody.SettleWith | src/shared/provider-attempt-observer.ts:263-267 | reports a status once and only once |
| ObservedResponse.ObservedBody.OnPullCalled | src/shared/provider-attempt-observer.ts:269-271 | the history of the body, one event for each method, is a run of the machine; here a pull begins |
| ObservedResponse.ObservedBody.OnReadDone | src/shared/provider-attempt-observer.ts:272-276 | the code from a finished read to its await is the machine's step |
| ObservedResponse.ObservedBody.OnReadValue | src/shared/provider-attempt-observer.ts:280-284 | the same for a chunk, which a cancelled stream no longer takes |
| ObservedResponse.ObservedBody.OnReadError | src/shared/provider-attempt-observer.ts:282-283 | the same for a failed read |
| ObservedResponse.ObservedBody.OnPullResumes | src/shared/provider-attempt-observer.ts:277-285 | the same for closing or erroring the stream after the report, also when a cancel came in between |
| ObservedResponse.ObservedBody.OnCancelCalled | src/shared/provider-attempt-observer.ts:287-289 | the same for the start of a cancel |
| ObservedResponse.ObservedBody.OnReaderCancelled | src/shared/provider-attempt-observer.ts:290-293 | the same for its finally block |
| ObservedResponse.ObservedBody.OnCancelResumes | src/shared/provider-attempt-observer.ts:292-294 | the same for the end of a cancel |
| ObservedResponse.ObservedBody.OnSignalAborts | src/shared/provider-attempt-observer.ts:352-355 | the same for an abort of the signal, at any time |
| ObservedStream.ReportedSnoc | src/shared/provider-attempt-observer.ts:215-220 | one more event changes what is reported only when it is the first terminal one |
| ObservedStream.FirstTerminalDecides | src/shared/provider-attempt-observer.ts:222-246 | after any number of results the first other event decides what is reported: completed, cancelled, failed or aborted, written out for each call and signal |
| ObservedStream.UnfinishedReportsNothing | src/shared/provider-attempt-observer.ts:222-226 | a result that is not the last ends nothing |
| ObservedStream.ObservedIterator.OnNextResolved | src/shared/provider-attempt-observer.ts:222-226 | exactly the first terminal status of the calls so far has been reported |
| ObservedStream.ObservedIterator.OnNextRejected | src/shared/provider-attempt-observer.ts:227-230 | the same when an inner next rejects |
| ObservedStream.ObservedIterator.OnReturnSettled | src/shared/provider-attempt-observer.ts:232-238 | the same for return, whatever its inner promise came to |
| ObservedStream.ObservedIterator.OnThrowSettled | src/shared/provider-attempt-observer.ts:239-246 | the same for throw, classifying the error thrown in |
| ContextWindow.ApportionTokens | src/shared/context-window-indicator.ts:109-124 | the loop hands the remainder out to the parts in fraction order |
| ContextWindow.PartsSumToTotal | src/shared/context-window-indicator.ts:108-124 | the parts sum exactly to the total |
| ContextWindow.RoundedUpHaveFraction | src/shared/context-window-indicator.ts:114-122 | only parts with a fraction are rounded up, so there are enough of them |
| ContextWindow.PartsKeepQuota | src/shared/context-window-indicator.ts:112-122 | each part is the floor or the ceiling of its exact share |
| ContextWindow.ZeroWeightGetsNothing | src/shared/context-window-indicator.ts:109-124 | a part without weight gets nothing |
| ContextWindow.LargerWeightNeverLess | src/shared/context-window-indicator.ts:115-122 | a strictly larger weight never gets less |
| ContextWindow.EarlierOfEqualsFirst | src/shared/context-window-indicator.ts:114-116 | of two equal weights the earlier part never gets less |
| ContextWindow.PartsWithinWeights | src/shared/context-window-indicator.ts:84-86 | scaling down gives no part more than its weight |
| ContextWindow.ApportionmentIsOptimal | src/shared/context-window-indicator.ts:108-124 | no integer split of the total has a smaller total deviation from the exact shares |
| ContextWindow.SplitDurableContext | src/shared/context-window-indicator.ts:88-106 | parts are non-negative, sum to durable, stay within the composition; the prefix is unchanged when it fits and the largest-remainder split of durable when it does not |
| McpNames.DerivedKeyIsServerKey | src/shared/mcp-native-name.ts:38-45 | a derived key starts with a letter, has at most 50 safe characters, and the separator first occurs right behind it |
| McpNames.SafeCharactersStay | src/shared/mcp-native-name.ts:39-40 | each letter, digit, `_` and `-` of a name stays in its place, any other character becomes `_` |
| McpNames.FirstSeparatorReplaced | src/shared/mcp-native-name.ts:41-42 | each separator in it becomes `_` |
| McpNames.DerivedFromName | src/shared/mcp-native-name.ts:38-45 | the key is that, `m_` in front without a letter, cut to 50 characters, its last one `_` exactly when it would end in "0mcp" |
| McpNames.PlainNameIsKey | src/shared/mcp-native-name.ts:38-45 | a name that starts with a letter, has at most 50 safe characters, no separator and no "0mcp" at its end is its own key |
| McpNames.CandidateIs | src/shared/mcp-native-name.ts:55-60 | a candidate is the start of the base key, `_`, and six digits of the digest |
| McpNames.CandidateIsServerKey | src/shared/mcp-native-name.ts:55-60 | the same for every collision candidate |
| McpNames.BoundaryKept | src/shared/mcp-native-name.ts:101-104 | replacing an overlapping last character restores that boundary |
| McpNames.DeriveUniqueMcpServerKey | src/shared/mcp-native-name.ts:52-64 | the key is the base key when that is free, else the first free candidate; it fails exactly when base and all candidates are taken |
| McpNames.ToolIsNamed | src/shared/mcp-native-name.ts:71-75 | a tool of safe characters is named as it is within 64 characters, any other by `_` and eight digits of its hash |
| McpNames.NameIsBoundedAndDecodes | src/shared/mcp-native-name.ts:71-75 | a name has at most 64 safe characters and its first separator splits it into exactly its key and segment |
| McpNames.SegmentResolves | src/shared/mcp-native-name.ts:82-85 | the segment of a tool resolves to it exactly when it is literal or nothing else claims its hash first |
| McpNames.NameOfHashWins | src/shared/mcp-native-name.ts:77-85 | a tool named as another's hashed segment takes that tool's calls |
| McpNames.UnclaimedSegmentStays | src/shared/mcp-native-name.ts:77-85 | a segment no listed tool claims, and a tool's own name, are returned as they are |
| McpNames.CallReachesTool | src/core/task/executors/provider/service/NativeToolCallMaterialization.ts:30-34 | a name decoded at its first separator and resolved leads to its key and its tool |
| McpRegistry.ServerKeys.GetMcpServerKey | src/services/mcp/McpHub.ts:308-317 | a server keeps the key it holds, a server without one gets a key no server holds; the history is a run |
| McpRegistry.ServerKeys.Delete | src/services/mcp/McpHub.ts:628 | the key is free again and no other changes |
| McpRegistry.HeldKeys | src/services/mcp/McpHub.ts:304-317 | in every run the keys held are good for names and no server holds two |
| McpRegistry.KeyStays | src/services/mcp/McpHub.ts:304-317 | a server holds the key it was given until that key is deleted |
| McpRegistry.KeysTellServersApart | src/services/mcp/McpHub.ts:304-317 | in every run two answers are the same key exactly when they are for the same server, while the first is not deleted |
| McpRegistry.SameKeyExactly | src/services/mcp/McpHub.ts:304-317 | in every run, deletions included, exactly when a later answer is an earlier key: its server holds it, or it is free and the server's first free key |
| McpRegistry.DeletedKeyIsHandedOn | src/services/mcp/McpHub.ts:640 | in an otherwise empty registry a deleted key goes to a different server registered next exactly when its name derives that key |
| McpRegistry.TwoServersOneKey | src/shared/mcp-native-name.ts:47-51 | the servers "a b" and "a/b" get one key, one after the other |
| ErrorRetry.GoverningFailureAskIndex | src/shared/combineErrorRetryMessages.ts:54-65 | finds the last interaction when it is a failure ask with a text |
| ErrorRetry.FindGoverningApiFailure | src/shared/combineErrorRetryMessages.ts:73-84 | finds that ask together with the last request before it |
| ErrorRetry.FindApiFailurePresentedBy | src/shared/combineErrorRetryMessages.ts:94-106 | the ask, for the governed request, unless an exhausted card follows that request |
| ErrorRetry.OwnRequestPresents | src/shared/combineErrorRetryMessages.ts:86-93 | with unique request timestamps exactly the governed request row presents the failure, when no exhausted card follows it |
| ErrorRetry.NeutralRowKeepsOwner | src/shared/combineErrorRetryMessages.ts:50-52 | a row that is no ask, request or retry never changes the owner, wherever it is inserted |
| ErrorRetry.ProjectCanonicalApiError | src/shared/combineErrorRetryMessages.ts:108-130 | rewrites the governed request's text unless it does not parse or already holds the message |
| ErrorRetry.ProjectionRewritesRequest | src/shared/combineErrorRetryMessages.ts:121-126 | at most one row changes, a request row, and only its text |
| ErrorRetry.IsDropped | src/shared/combineErrorRetryMessages.ts:176-236 | the flagged look-ahead decides exactly what the quantified survival rule says |
| ErrorRetry.CombineErrorRetryMessages | src/shared/combineErrorRetryMessages.ts:169-242 | the nested loops compute the combined rows |
| ErrorRetry.CombinedShape | src/shared/combineErrorRetryMessages.ts:132-142 | the output is every row that is no retry, in order, and of the retries at most the last |
| ErrorRetry.CardStaysExactly | src/shared/combineErrorRetryMessages.ts:176-236 | exactly when the last card stays: no response of the stated kinds behind a restart, and it is exhausted or no failure ask and no request follows; all other cards go |
| ErrorRetry.RequestShowsFailure | src/shared/combineErrorRetryMessages.ts:108-130 | the governed request's row shows the failure's message in the result, when its text parses |
| ErrorRetry.CombinedWithoutRetry | src/shared/combineErrorRetryMessages.ts:169-242 | without retry rows only the projection acts |
| ErrorRetry.CombineIsIdempotent | src/shared/combineErrorRetryMessages.ts:169-242 | combining twice equals combining once |
| ErrorRetry.ExhaustedCardOwns | src/shared/combineErrorRetryMessages.ts:89-93 | an exhausted last card behind the request silences the request row and is kept by the combiner |
| ErrorRetry.ExplainedNowhereExactly | src/shared/combineErrorRetryMessages.ts:86-106 | request row and card never both explain a governed failure, and exactly when neither does |
| ErrorRetry.ExplainedNowhere | src/shared/combineErrorRetryMessages.ts:220-222 | a transcript whose failure is explained nowhere |
| ApiRequests.CombinePairs | src/shared/combineApiRequests.ts:42-76 | the monotonic pointer pairs exactly as scanning forward and jumping past does, and fails on the same malformed text |
| ApiRequests.CombineApiRequests | src/shared/combineApiRequests.ts:21-90 | the whole function equals the simple form on every list |
| ApiRequests.WriteOutput | src/shared/combineApiRequests.ts:78-89 | the pre-sized array is filled exactly, in order |
| ApiRequests.PairsInRange | src/shared/combineApiRequests.ts:32-34 | a pair is a request and the first finishing row behind it |
| ApiRequests.PairsDoNotCross | src/shared/combineApiRequests.ts:72-75 | pairs share no rows and do not cross |
| ApiRequests.UnpairedRequests | src/shared/combineApiRequests.ts:53-56 | a request stays unpaired only inside another pair or when nothing finishes behind it |
| ApiRequests.FirstPairDecides | src/shared/combineApiRequests.ts:22-25 | the first pair of a timestamp decides its combined row |
| ApiRequests.OutputKeepsOrder | src/shared/combineApiRequests.ts:78-88 | the output has every row but the finishing ones, in order |
| ApiRequests.PairedRequestIsMerged | src/shared/combineApiRequests.ts:59-88 | in the result a request whose timestamp a pair has shows the merged text of the first such pair, at its place |
| ApiRequests.OtherRowStays | src/shared/combineApiRequests.ts:78-88 | every other row but the finishing ones stands unchanged, at its place |
| ApiRequests.MalformedExactly | src/shared/combineApiRequests.ts:59-60 | it fails exactly when the texts of some pair do not parse |
| HookSequences.DedupeToolOrCommandMessagesByTimestamp | src/shared/combineHookSequences.ts:41-56 | keeps the newest tool or command row of a timestamp and every other row |
| HookSequences.DedupedIsDistinct | src/shared/combineHookSequences.ts:34-40 | afterwards tool and command timestamps are distinct |
| HookSequences.NewestStays | src/shared/combineHookSequences.ts:41-56 | of the tool and command rows of a timestamp exactly the last stays |
| HookSequences.OthersStay | src/shared/combineHookSequences.ts:41-56 | all other rows stay, in order |
| HookSequences.CombineHookWithOutputs | src/shared/combineHookSequences.ts:66-98 | collects the outputs up to the next hook behind one marker, and returns where that hook is |
| HookSequences.HookShows | src/shared/combineHookSequences.ts:66-98 | a hook shows its text, the marker line, and each output text that is not empty on a line of its own |
| HookSequences.OtherRowsDoNotShow | src/shared/combineHookSequences.ts:74-93 | rows between that are no hook and no output change nothing of it |
| HookSequences.CombineHookSequences | src/shared/combineHookSequences.ts:149-157 | the loops compute the combined rows |
| HookSequences.WithHooksIsDirect | src/shared/combineHookSequences.ts:107-135 | with distinct hook timestamps the hook pass gives each hook exactly the outputs before the next hook |
| HookSequences.HooksCollectOwnOutputs | src/shared/combineHookSequences.ts:149-157 | the same for the whole function: each hook has its own outputs, and all else but replaced tool and command rows stays in order |
| HookSequences.CombineIsIdempotent | src/shared/combineHookSequences.ts:149-157 | combining twice equals combining once, even with shared hook timestamps |
| CommandSequences.CollectOutputs | src/shared/combineCommandSequences.ts:30-46 | for each command, the non-empty outputs that name it, in order, however commands interleave |
| CommandSequences.CombineCommandSequences | src/shared/combineCommandSequences.ts:24-75 | the loops compute the merged rows |
| CommandSequences.CommandShowsOwnOutputs | src/shared/combineCommandSequences.ts:48-62 | the result has every row but the outputs, in order; a command with a timestamp of its own keeps its command line, directory and approval and shows its earlier output and then each non-empty output that names it, one per line |
| CommandSequences.OutputsOfParts | src/shared/combineCommandSequences.ts:30-46 | which rows are a command's outputs, and that they count in transcript order |
| CommandSequences.CombineIsIdempotent | src/shared/combineCommandSequences.ts:24-75 | merging twice equals merging once |
| WhatsNew.NextMatch | webview-ui/vite-whats-new.ts:21 | the scanner stops at the first place where a token starts, as the global expression does |
| WhatsNew.ParseInline | webview-ui/vite-whats-new.ts:110-144 | the loop computes the runs or the first error |
| WhatsNew.TokensAre | webview-ui/vite-whats-new.ts:20-21 | which bold, code and link tokens are read, by their characters |
| WhatsNew.UnsupportedAtIs | webview-ui/vite-whats-new.ts:22-23 | what is unsupported markup: left-over markers, strikethrough, tags, entities |
| WhatsNew.UnsupportedSomewhere | webview-ui/vite-whats-new.ts:114 | a text is rejected for it anywhere in it |
| WhatsNew.FirstErrorDecides | webview-ui/vite-whats-new.ts:124-140 | behind accepted runs the next text and token decide which error a text gets, or parsing goes on |
| WhatsNew.LastTextDecides | webview-ui/vite-whats-new.ts:141-143 | a last text is a run or is rejected |
| WhatsNew.TokenPrints | webview-ui/vite-whats-new.ts:20-21 | a token is exactly what its run prints |
| WhatsNew.PrintedIsToken | webview-ui/vite-whats-new.ts:20-21 | a printed run is read back as its token, whatever follows |
| WhatsNew.NoTokenInText | webview-ui/vite-whats-new.ts:22-23 | no token starts inside a text that passes the check for unsupported syntax |
| WhatsNew.PrintInvertsParse | webview-ui/vite-whats-new.ts:110-144 | printing an accepted text's runs gives back the text, and the runs are canonical |
| WhatsNew.ParseInvertsPrint | webview-ui/vite-whats-new.ts:110-144 | parsing what a canonical run list prints gives back the list |
| AccountUsageRuns.ConcurrentGetsJoin | src/core/account-usage/AccountUsageCoordinator.ts:26-28 | in every run a get between the start of a load and its end joins it, unless the key was dropped meanwhile |
| AccountUsageRuns.LoadsDoNotOverlap | src/core/account-usage/AccountUsageCoordinator.ts:12-14 | in every run a second load of a key starts only after the first has settled or was dropped |
| AccountUsageRuns.CachedWhileYoung | src/core/account-usage/AccountUsageCoordinator.ts:29-31 | the value of a load is answered without another exactly while it is younger than the TTL |
| AccountUsageRuns.AnswerIsCurrent | src/core/account-usage/AccountUsageCoordinator.ts:24-48 | behind every answer stands a load started after the key was last dropped: in flight, younger than the TTL, or new; except exactly while the clock reads less than the TTL and the key's loads all failed, when it answers with nothing |
| AccountUsageRuns.NoStaleAnswer | src/core/account-usage/AccountUsageCoordinator.ts:50-58 | with a clock that starts at the TTL or later, no get after a drop of its key is answered by a load started before |
| AccountUsage.AccountUsageCoordinator.Get | src/core/account-usage/AccountUsageCoordinator.ts:24-48 | joins the load in flight, answers the value cached exactly while it is younger than the TTL, or starts a load; what the entry holds stays; the history is a run |
| AccountUsage.AccountUsageCoordinator.OnResolved | src/core/account-usage/AccountUsageCoordinator.ts:35-39 | stores the value in the load's own entry, cached or dropped |
| AccountUsage.AccountUsageCoordinator.OnSettled | src/core/account-usage/AccountUsageCoordinator.ts:40-44 | clears the entry's load in flight |
| AccountUsage.AccountUsageCoordinator.Clear | src/core/account-usage/AccountUsageCoordinator.ts:56-58 | no load started before serves any key afterwards |
| AccountUsage.AccountUsageCoordinator.DeleteByPrefix | src/core/account-usage/AccountUsageCoordinator.ts:50-54 | the same for the keys with the prefix, and no other key changes |
| ProcessTree.GetProcessDepth | src/utils/process-termination.ts:56-68 | ends on every list, cyclic links included, with the depth |
| ProcessTree.DepthOfRoot | src/utils/process-termination.ts:60-63 | a process without a listed parent has depth 0 |
| ProcessTree.OrderIsPermutation | src/utils/process-termination.ts:70-78 | the order is a permutation of the listed pids; a missing root is the only error |
| ProcessTree.DepthOfAncestor | src/utils/process-termination.ts:60-66 | without loops a process is deeper than an ancestor by the links between them |
| ProcessTree.DescendantsFirst | src/utils/process-termination.ts:70-78 | with unique non-zero pids and no loops each process precedes all its listed ancestors |
| ProcessTree.TiesKeepOrder | src/utils/process-termination.ts:74-77 | processes of equal depth stay in the order of the list |
| ProcessTree.LastOfPidIsIndexed | src/utils/process-termination.ts:74 | of several processes with one pid the last is looked up |
| Checkpoints.LookupReadsMap | src/shared/checkpoints.ts:75-93 | a lookup reads the root-to-hash map, an empty hash being none |
| Checkpoints.EqualComparesLeftRoots | src/shared/checkpoints.ts:95-121 | equality compares the hashes at the left side's roots |
| Checkpoints.EqualIffSameMap | src/shared/checkpoints.ts:95-121 | with non-empty hashes, equal exactly when both denote the same map |
| Checkpoints.EqualityIsEquivalence | src/shared/checkpoints.ts:95-121 | so equality is reflexive, symmetric and transitive |
| Checkpoints.EqualityTurnsRound | src/shared/checkpoints.ts:114-118 | exactly when an equality also holds the other way round |
| Checkpoints.EmptyHashIsNotSymmetric | src/shared/checkpoints.ts:114-118 | with an empty hash equality is not symmetric |
| Checkpoints.EqualityChains | src/shared/checkpoints.ts:95-121 | exactly when two equalities chain |
| Checkpoints.EmptyHashIsNotTransitive | src/shared/checkpoints.ts:114-118 | with empty hashes equality is not transitive |
| Checkpoints.LookupSurvivesReordering | src/shared/checkpoints.ts:74-93 | reordering roots and hashes together changes no lookup |
| Checkpoints.LegacyLookup | src/shared/checkpoints.ts:86-92 | a set without roots answers by position |
| Checkpoints.UnlistedRootHasNone | src/shared/checkpoints.ts:87-89 | a path that is none of a set's roots has no hash there |
| Checkpoints.LegacyEquality | src/shared/checkpoints.ts:101-120 | sets without roots are equal exactly when their hashes are, and never equal one with roots |
| Checkpoints.UnequalSets | src/shared/checkpoints.ts:95-113 | absent sets and sets of other sizes are not equal |

## Left out

- `observeProviderCall`, `observeProviderStreamResponse`, `observeProviderStream`, `observeProviderResponse`: they begin one attempt and finish it or hand it to the wrappers modelled here; async-local scopes are not part of this model.
- An iterable that is iterated twice reports once per iterator; the model is of one iterator.
- A loader that throws before it returns its promise, or that calls the coordinator from within `get`: here `get` is one step.
- `TextDecoder`: the detector's chunks are the decoded texts, not bytes; `toLowerCase().includes` of the content type is a boolean.
- `readDurableContextComposition` and the other readers and clamps: single-pass validation.
- `readListItems`, `parseWhatsNew`: the line structure around the inline parser, and the location in its error messages.
- `parseLegacyCommandText`: reading a legacy command row is a parameter of the command merge.
- JSON texts other than objects: what the retry card's and the request's text say is read through function parameters.
- Fractional figures: `maxBytes`, `maxSize`, `maxLineBytes` and `durableTokens` are integers; the code floors all but `maxLineBytes`, and takes a `durableTokens` that is not finite as 0.
- Signals, polling and deadlines of `process-termination.ts`: effects of the operating system.
- Message fields that the projections only copy.
